/**
 The identity-last order of the active extensions: a stable sort keyed on
 "the name starts with `user`". With a Boolean key (`False < True`) a stable
 sort is a stable partition, which `UserLast` states directly.
 */
module Ordering {
  import opened Strings

  const IdentityPrefix: string := "user"

  /** The sort key: an identity-setup extension, applied last. Its first
      four characters spell `user`. */
  predicate IsUser(name: string)
    ensures IsUser(name)
        <==> |name| >= 4 && name[0] == 'u' && name[1] == 's' && name[2] == 'e' && name[3] == 'r'
  {
    StartsWith(name, IdentityPrefix)
  }

  /** The names whose key equals `user`, in their original order. */
  function Select(s: seq<string>, user: bool): (r: seq<string>)
    ensures |r| <= |s|
    decreases |s|
  {
    if |s| == 0 then []
    else
      var rest := Select(s[1..], user);
      if IsUser(s[0]) == user then [s[0]] + rest else rest
  }

  /** A name is selected iff it is in the list and has the given key. */
  lemma {:induction false} SelectMembers(s: seq<string>, user: bool, x: string)
    ensures x in Select(s, user) <==> x in s && IsUser(x) == user
    decreases |s|
  {
    if |s| > 0 {
      SelectMembers(s[1..], user, x);
      assert x in s <==> x == s[0] || x in s[1..];
    }
  }

  /** What the stable sort produces: every other extension in its original
      order, then every identity-setup extension in its original order. */
  function UserLast(s: seq<string>): (r: seq<string>)
    ensures |r| == |s|
  {
    SelectLengths(s);
    Select(s, false) + Select(s, true)
  }

  /** Every name goes to exactly one of the two selections. */
  lemma {:induction false} SelectLengths(s: seq<string>)
    ensures |Select(s, false)| + |Select(s, true)| == |s|
    decreases |s|
  {
    if |s| > 0 {
      SelectLengths(s[1..]);
    }
  }

  /** No identity-setup extension comes before one that is not. */
  predicate Partitioned(s: seq<string>) {
    forall i, j :: 0 <= i < j < |s| && IsUser(s[i]) ==> IsUser(s[j])
  }

  lemma {:induction false} SelectAppend(p: seq<string>, q: seq<string>, user: bool)
    ensures Select(p + q, user) == Select(p, user) + Select(q, user)
    decreases |p|
  {
    if |p| == 0 {
      assert p + q == q;
    } else {
      assert (p + q)[0] == p[0];
      assert (p + q)[1..] == p[1..] + q;
      SelectAppend(p[1..], q, user);
    }
  }

  /** The two selections split the multiset of names between them. */
  lemma {:induction false} SelectSplitsMultiset(s: seq<string>)
    ensures multiset(Select(s, false)) + multiset(Select(s, true)) == multiset(s)
    decreases |s|
  {
    if |s| > 0 {
      SelectSplitsMultiset(s[1..]);
      assert s == [s[0]] + s[1..];
      assert multiset(s) == multiset([s[0]]) + multiset(s[1..]);
    }
  }

  /** Selecting from a list whose keys all equal `user` keeps all of it. */
  lemma {:induction false} SelectUniform(s: seq<string>, user: bool)
    requires forall i :: 0 <= i < |s| ==> IsUser(s[i]) == user
    ensures Select(s, user) == s
    ensures Select(s, !user) == []
    decreases |s|
  {
    if |s| > 0 {
      assert IsUser(s[0]) == user;
      SelectUniform(s[1..], user);
      assert [s[0]] + s[1..] == s;
    }
  }

  /** Sorting is a permutation: no extension is added, dropped or duplicated. */
  lemma UserLastPermutes(s: seq<string>)
    ensures multiset(UserLast(s)) == multiset(s)
  {
    SelectSplitsMultiset(s);
  }

  /** After sorting, every identity-setup extension comes after every other. */
  lemma UserLastPartitioned(s: seq<string>)
    ensures Partitioned(UserLast(s))
  {
    var lo, hi := Select(s, false), Select(s, true);
    var r := UserLast(s);
    forall i | 0 <= i < |r| ensures IsUser(r[i]) == (i >= |lo|) {
      if i < |lo| {
        assert r[i] == lo[i] && lo[i] in lo;
        SelectMembers(s, false, r[i]);
      } else {
        assert r[i] == hi[i - |lo|] && hi[i - |lo|] in hi;
        SelectMembers(s, true, r[i]);
      }
    }
  }

  /** Sorting is stable: within each key the relative order is the original
      one. */
  lemma UserLastStable(s: seq<string>)
    ensures Select(UserLast(s), false) == Select(s, false)
    ensures Select(UserLast(s), true) == Select(s, true)
  {
    var lo, hi := Select(s, false), Select(s, true);
    SelectAppend(lo, hi, false);
    SelectAppend(lo, hi, true);
    assert forall i :: 0 <= i < |lo| ==> IsUser(lo[i]) == false by {
      forall i | 0 <= i < |lo| ensures !IsUser(lo[i]) {
        assert lo[i] in lo;
        SelectMembers(s, false, lo[i]);
      }
    }
    assert forall i :: 0 <= i < |hi| ==> IsUser(hi[i]) == true by {
      forall i | 0 <= i < |hi| ensures IsUser(hi[i]) {
        assert hi[i] in hi;
        SelectMembers(s, true, hi[i]);
      }
    }
    SelectUniform(lo, false);
    SelectUniform(hi, true);
  }

  /** A list already in identity-last order is left as it is. */
  lemma {:induction false} UserLastOfPartitioned(s: seq<string>)
    requires Partitioned(s)
    ensures UserLast(s) == s
    decreases |s|
  {
    if |s| > 0 {
      var tail := s[1..];
      if IsUser(s[0]) {
        assert forall i :: 0 <= i < |s| ==> IsUser(s[i]) == true by {
          forall i | 0 <= i < |s| ensures IsUser(s[i]) {
            if i > 0 { assert IsUser(s[0]) ==> IsUser(s[i]); }
          }
        }
        SelectUniform(s, true);
      } else {
        assert Partitioned(tail) by {
          forall i, j | 0 <= i < j < |tail| && IsUser(tail[i]) ensures IsUser(tail[j]) {
            assert tail[i] == s[i + 1] && tail[j] == s[j + 1];
          }
        }
        UserLastOfPartitioned(tail);
        assert UserLast(s) == [s[0]] + UserLast(tail);
        assert [s[0]] + tail == s;
      }
    }
  }

  /** Sorting twice is the same as sorting once. */
  lemma UserLastIdempotent(s: seq<string>)
    ensures UserLast(UserLast(s)) == UserLast(s)
  {
    UserLastPartitioned(s);
    UserLastOfPartitioned(UserLast(s));
  }

  /** The three properties of a stable sort by this key determine its result:
      a partitioned list with the same subsequence of each key is
      `UserLast(s)`. */
  lemma UserLastUnique(s: seq<string>, t: seq<string>)
    requires Partitioned(t)
    requires Select(t, false) == Select(s, false)
    requires Select(t, true) == Select(s, true)
    ensures t == UserLast(s)
  {
    UserLastOfPartitioned(t);
  }

  /** The `user` extension ends up after `env` whichever was discovered
      first. */
  lemma UserAfterEnv()
    ensures UserLast(["user", "env"]) == ["env", "user"]
    ensures UserLast(["env", "user"]) == ["env", "user"]
  {
    assert IsUser("user") && !IsUser("env");
  }

  /** `list.sort(key=lambda e: e.get_name().startswith('user'))`, in place:
      the other names are moved forward in order, then the `user` names are
      written after them. */
  method SortUserLast(a: array<string>)
    modifies a
    ensures a[..] == UserLast(old(a[..]))
  {
    ghost var others := Select(a[..], false);
    var k, users := MoveOthersForward(a);
    for j := 0 to |users|
      invariant forall t :: 0 <= t < k ==> a[t] == others[t]
      invariant forall t :: 0 <= t < j ==> a[k + t] == users[t]
    {
      a[k + j] := users[j];
    }
    assert a[..] == others + users;
  }

  /** The first pass of `SortUserLast`: the names that are not `user` names
      are compacted, in order, into a prefix of the array; the `user` names
      are returned in order, and the rest of the array is left as it was. */
  method MoveOthersForward(a: array<string>) returns (k: nat, users: seq<string>)
    modifies a
    ensures k + |users| == a.Length
    ensures k == |Select(old(a[..]), false)|
    ensures forall t :: 0 <= t < k ==> a[t] == Select(old(a[..]), false)[t]
    ensures users == Select(old(a[..]), true)
    ensures a[k..] == old(a[k..])
  {
    ghost var s := a[..];
    ghost var others: seq<string> := [];
    users := [];
    k := 0;
    for i := 0 to a.Length
      invariant k == |others| && k + |users| == i
      invariant others == Select(s[..i], false)
      invariant users == Select(s[..i], true)
      invariant forall t :: 0 <= t < k ==> a[t] == others[t]
      invariant forall t :: k <= t < a.Length ==> a[t] == s[t]
    {
      var name := a[i];
      assert s[..i + 1] == s[..i] + [name];
      SelectAppend(s[..i], [name], false);
      SelectAppend(s[..i], [name], true);
      if IsUser(name) {
        users := users + [name];
      } else {
        a[k] := name;
        others := others + [name];
        k := k + 1;
      }
    }
    assert s[..a.Length] == s;
  }
}
