/**
 Which discovered extensions take part in one invocation. An extension is
 represented by its name; the parsed command line is represented by the
 truthiness of each option value, keyed by option name.
 */
module Activation {

  type Options = map<string, bool>

  /** `args_dict.get(name)` is truthy: the key is present and its value is
      truthy (a missing key reads as `None`, which is falsy). */
  predicate Enabled(options: Options, name: string) {
    name in options && options[name]
  }

  /** The active extensions: the discovered ones, in discovery order, whose
      name is enabled in the options. */
  function Activate(plugins: seq<string>, options: Options): (r: seq<string>)
    ensures |r| <= |plugins|
    ensures forall x :: x in r <==> x in plugins && Enabled(options, x)
    decreases |plugins|
  {
    if |plugins| == 0 then []
    else
      var rest := Activate(plugins[1..], options);
      assert forall x :: x in plugins <==> x == plugins[0] || x in plugins[1..];
      if Enabled(options, plugins[0]) then [plugins[0]] + rest else rest
  }

  /** Filtering distributes over concatenation: the extensions activated
      from an earlier part of the discovery list come before those activated
      from a later part. */
  lemma {:induction false} ActivateAppend(p: seq<string>, q: seq<string>, options: Options)
    ensures Activate(p + q, options) == Activate(p, options) + Activate(q, options)
    decreases |p|
  {
    if |p| == 0 {
      assert p + q == q;
    } else {
      assert (p + q)[0] == p[0];
      assert (p + q)[1..] == p[1..] + q;
      ActivateAppend(p[1..], q, options);
    }
  }

  /** Each name occurs in the active list exactly as often as in the
      discovery list when it is enabled, and not at all otherwise: nothing is
      added, dropped or duplicated. */
  lemma {:induction false} ActivateCount(plugins: seq<string>, options: Options, x: string)
    ensures multiset(Activate(plugins, options))[x]
         == if Enabled(options, x) then multiset(plugins)[x] else 0
    decreases |plugins|
  {
    if |plugins| > 0 {
      ActivateCount(plugins[1..], options, x);
      assert plugins == [plugins[0]] + plugins[1..];
      assert multiset(plugins) == multiset([plugins[0]]) + multiset(plugins[1..]);
    }
  }

  /** Two enabled extensions keep their discovery order in the active list. */
  lemma ActivateKeepsOrder(plugins: seq<string>, options: Options, i: nat, j: nat)
    requires i < j < |plugins|
    requires Enabled(options, plugins[i]) && Enabled(options, plugins[j])
    ensures exists k, l :: 0 <= k < l < |Activate(plugins, options)|
              && Activate(plugins, options)[k] == plugins[i]
              && Activate(plugins, options)[l] == plugins[j]
  {
    var front, back := plugins[..j], plugins[j..];
    assert plugins == front + back;
    ActivateAppend(front, back, options);
    var a, b := Activate(front, options), Activate(back, options);
    assert plugins[i] == front[i];
    assert plugins[i] in a;
    var k :| 0 <= k < |a| && a[k] == plugins[i];
    assert back[0] == plugins[j];
    assert back == [back[0]] + back[1..];
    assert b[0] == plugins[j];
    var r := Activate(plugins, options);
    assert r == a + b;
    assert r[k] == plugins[i] && r[|a|] == plugins[j];
  }

  predicate Distinct(s: seq<string>) {
    forall i, j :: 0 <= i < j < |s| ==> s[i] != s[j]
  }

  /** Discovered extensions have distinct names, so no extension is activated
      twice. */
  lemma {:induction false} ActivateDistinct(plugins: seq<string>, options: Options)
    requires Distinct(plugins)
    ensures Distinct(Activate(plugins, options))
    decreases |plugins|
  {
    if |plugins| > 0 {
      var tail := plugins[1..];
      assert Distinct(tail) by {
        forall i, j | 0 <= i < j < |tail| ensures tail[i] != tail[j] {
          assert tail[i] == plugins[i + 1] && tail[j] == plugins[j + 1];
        }
      }
      ActivateDistinct(tail, options);
      assert plugins[0] !in tail by {
        forall i | 0 <= i < |tail| ensures tail[i] != plugins[0] {
          assert tail[i] == plugins[i + 1];
        }
      }
      var rest := Activate(tail, options);
      assert plugins[0] !in rest;
      if Enabled(options, plugins[0]) {
        var r := [plugins[0]] + rest;
        forall i, j | 0 <= i < j < |r| ensures r[i] != r[j] {
          if i == 0 {
            assert r[j] == rest[j - 1];
          } else {
            assert r[i] == rest[i - 1] && r[j] == rest[j - 1];
          }
        }
      }
    }
  }
}
