# rocker: extension composition in `main()`

rocker runs a Docker image with extra options contributed by extensions
(plugins). Its command line entry point, `main()` in `src/rocker/cli.py`,
decides which discovered extensions are active, orders them so that the
`user*` (identity-setup) extensions come last, splits the positional
`image` arguments into a base image and a command, optionally pulls the base
image (ignoring a pull error), builds the extended image and, only if the
build returned 0, runs it and returns the run's exit code.

This project models that step in Dafny:

- `strings.dfy` (module `Strings`): `str.startswith`, `' '.join` and a
  one-character `str.split` used as the inverse of `join`.
- `activation.dfy` (module `Activation`): the option dictionary as
  `map<string, bool>` (each option's truthiness) and the activation filter.
- `ordering.dfy` (module `Ordering`): the `user`-last key, its specification
  `UserLast` (a stable partition) and `SortUserLast`, which reorders an
  `array<string>` in place as `list.sort` does.
- `cli.dfy` (module `Cli`): `Pipeline`, a function that gives the exit code and
  the sequence of engine calls (pull, build, run) of one invocation, and
  `Invoke`, the imperative form of `main()` proved equal to it.

Extensions are represented by their names. The discovered plugins are an
input sequence of names in `plugins.values()` order. The Docker engine is an
input too: whether the pull raised, the build's exit code and the run's exit
code. The calls on the engine are recorded in order, and a pull's entry says
whether it raised. `--pull` is read from the same option map as the extension flags,
under the key `pull`, because `args.pull` and `args_dict['pull']` are the
same value.

## Model

| member | source | states |
|---|---|---|
| `Activation.Activate` | src/rocker/cli.py:45 | a name is active iff it was discovered and `Enabled` holds of it, the condition of the comprehension: its key is present and its value truthy (an absent key reads as `None`, which is falsy); the result is no longer than the discovery list |
| `Activation.ActivateAppend` | src/rocker/cli.py:45 | activation distributes over concatenation of the discovery list, so what is activated from an earlier part precedes what is activated from a later part |
| `Activation.ActivateCount` | src/rocker/cli.py:45 | each name occurs in the active list as often as discovered when enabled and never otherwise: nothing added, dropped or duplicated |
| `Activation.ActivateKeepsOrder` | src/rocker/cli.py:45 | two enabled extensions at discovery positions i < j appear in the active list in that order |
| `Activation.ActivateDistinct` | src/rocker/cli.py:45 | distinct discovered names give an active list without repeats: no extension is activated twice |
| `Strings.StartsWith` | src/rocker/cli.py:47 | `startswith`: the prefix is no longer than the string and agrees with it character by character, so the string is the prefix followed by the rest |
| `Ordering.IsUser` | src/rocker/cli.py:47 | the sort key holds exactly when the name's first four characters are `u`, `s`, `e`, `r` |
| `Ordering.UserLast` | src/rocker/cli.py:47 | the sorted list (non-`user` names, then `user` names) has the same length as the active list |
| `Ordering.SelectMembers` | src/rocker/cli.py:47 | a name is in the group of one sort key iff it is in the list and has that key |
| `Ordering.UserLastPermutes` | src/rocker/cli.py:47 | sorting is a permutation of the active list (multiset equality) |
| `Ordering.UserLastPartitioned` | src/rocker/cli.py:47 | after sorting, every name starting with `user` comes after every name that does not |
| `Ordering.UserLastStable` | src/rocker/cli.py:47 | after sorting, the non-`user` names and the `user` names are each in their pre-sort relative order |
| `Ordering.UserLastOfPartitioned` | src/rocker/cli.py:47 | a list already in `user`-last order is left unchanged by the sort |
| `Ordering.UserLastIdempotent` | src/rocker/cli.py:47 | sorting an already sorted list changes nothing |
| `Ordering.UserLastUnique` | src/rocker/cli.py:47 | partition plus stability determine the sort's result: any partitioned list with the same per-key subsequences is it |
| `Ordering.UserAfterEnv` | src/rocker/cli.py:47 | `user` and `env` are ordered `env, user` whichever was discovered first |
| `Ordering.SortUserLast` | src/rocker/cli.py:47 | the in-place sort leaves the array holding `UserLast` of its old contents |
| `Ordering.MoveOthersForward` | src/rocker/cli.py:47 | first pass of the in-place sort: the non-`user` names end up, in order, in a prefix of the array and the `user` names are returned in order; the rest of the array is unchanged |
| `Strings.Join` | src/rocker/cli.py:65 | `' '.join`: empty for no parts, otherwise beginning with the first part |
| `Strings.SplitJoinRoundTrip` | src/rocker/cli.py:65 | splitting the joined command on the separator gives back the parts when there is at least one and none contains the separator |
| `Strings.JoinLength` | src/rocker/cli.py:65 | the joined command's length is the sum of the parts' lengths plus one separator per gap |
| `Cli.BaseImage` | src/rocker/cli.py:50 | the base image is the first image argument: it followed by the remaining arguments is the whole list |
| `Cli.Command` | src/rocker/cli.py:65 | the command is the empty string for a single image argument, and otherwise begins with the first argument after the image |
| `Cli.ImageArgumentsRecoverable` | src/rocker/cli.py:50-65 | base image (`image[0]`) followed by the words of the command is the image argument list, when there is a command and no argument holds a space |
| `Cli.CommandForgetsArgumentBoundaries` | src/rocker/cli.py:65 | joining with spaces cannot tell `["a b"]` from `["a", "b"]` |
| `Cli.Extensions` | src/rocker/cli.py:45-47 | the extensions handed to the image generator are as many as are active, never more than were discovered |
| `Cli.ExtensionsAreActive` | src/rocker/cli.py:45-47 | the extensions handed to the image generator are a permutation of the active list: exactly the enabled discovered names |
| `Cli.ExtensionsOrdered` | src/rocker/cli.py:45-47 | the extensions handed to the image generator have every `user*` name last and each group in discovery order |
| `Cli.Pipeline` | src/rocker/cli.py:52-65 | a non-zero build code is returned as is and no run call is made; a zero build code returns the run's code; a run call is made iff the build returned 0 |
| `Cli.PipelineCalls` | src/rocker/cli.py:52-65 | the pull (when `--pull`) comes first; the build is always called exactly once, right after it, with the base image and the ordered extensions; on success the run follows with the same extensions and the joined command |
| `Cli.PullFailureIgnored` | src/rocker/cli.py:52-60 | a pull that raises is recorded as raised, and the exit code and every call after the pull are the same as when it succeeds |
| `Cli.PipelineSucceeds` | src/rocker/cli.py:62-65 | the exit code is 0 iff both build and run returned 0 |
| `Cli.Invoke` | src/rocker/cli.py:45-65 | the imperative `main()` (filter, in-place sort, pull, build, early return, run) returns exactly the exit code and engine calls of `Pipeline` |

## Behaviour as the code has it

- The identity-setup category is decided by the name alone: any extension whose name starts with `user` (`user`, but also `username` or `user_env`) sorts last. No flag on the extension marks it.
- `main()` does not reject two extensions with the same name; the plugin dictionary's keys are the only guard, and they are built in `core.py`.
- `--noexecute` is not acted on in `main()`: it is passed on to `build` and `run` with the other options, so the build-then-run sequence here is the same whether it is set or not.
- A container that cannot be started is not told apart from one that exits non-zero: `main()` returns whatever `run` returns.

## Left out

- Argument parsing and flag registration (`src/rocker/cli.py:29-43`): the model starts from the parsed option map; each option value is reduced to its Python truthiness, and `image` is given as a non-empty list because `nargs='+'` makes argparse reject an empty one.
- Plugin discovery (`list_plugins`, in `core.py`): `core.py` is not part of this model. The discovered plugins are an input list of names; the model does not check that `get_name()` agrees with the dictionary key.
- Instantiation of each active extension (`e()`) is not modelled; an extension is its name.
- The Docker client: the pull stream and its output lines are not modelled. Whether the pull raised an `APIError` is an input; it is recorded in the pull's trace entry and is otherwise caught and ignored. Exceptions of other types, which the source does not catch, are not modelled.
- `DockerImageGenerator.build` and `.run` (in `core.py`, not part of this model): their exit codes are inputs. What they do with the remaining options, including `--noexecute`, `--nocache`, `--network` and `--devices`, is inside `core.py` and is not modelled.
- `print` output (`src/rocker/cli.py:38`, `48`, `55-59`) is diagnostic only.
- `SortUserLast`: Python's sort algorithm is not reproduced; the method is a stable partition that produces the same list, which is all `main()` depends on.
- Duplicate extension names as a configuration error: the source does not check for them in `main()`; `ActivateDistinct` assumes distinct names and shows they stay distinct.
