# Arianna breadcrumb trail — a Dafny model

The Struts 2 Arianna plugin records, per user session, a *breadcrumb trail*. This is the
ordered history of the annotated actions the user has visited, oldest first. Its
`BreadCrumbInterceptor` does the work, in four steps:

- It builds a `Crumb` for each action annotated with `@BreadCrumb`. The display name is
  taken verbatim, or evaluated when it is written `%{expr}`. The crumb also keeps a
  snapshot of the request parameters, less those matched by the annotation's drop patterns.
- It finds the session's `BreadCrumbTrail` under `CRUMB_KEY`, or creates one named
  `$arianna` with the plugin's `maxCrumbs`.
- It resolves the rewind mode and the comparator. The annotation's values override the
  interceptor's defaults unless they are the `DEFAULT` or `BreadCrumb.NULL` sentinels.
- It updates the trail's stack:
  - A crumb equal to the top (for the comparator) replaces the top.
  - Any other crumb is pushed. In `AUTO` mode, an earlier equal entry is first discarded
    together with everything after it. When the stack is over `maxCrumbs`, the oldest
    entry is evicted.

Modules:

- `Wrappers` (wrappers.dfy): `Option` stands for Java's null. `Result` stands for an
  exception.
- `Crumbs` (crumbs.dfy): the `Crumb`, `RewindMode`, `Comparator` and `BreadCrumb`
  annotation types. It also states the assumption about `BreadCrumbTrail.indexOf`
  (`IsIndexOf`) and gives one function that meets it (`FirstMatch`).
- `Trail` (trail.dfy): the `BreadCrumbTrail` class. Its fields are `name`,
  `maxCrumbs` and the stack `crumbs: seq<Crumb>` (oldest first). `indexOf` and
  `rewindAt` are modelled as the interceptor's call sites use them.
- `TrailUpdate` (trail_update.dfy): `Step`, the specification of one update. It is
  written for ANY index the trail's `indexOf` may report. The module also holds the
  lemmas about `Step`, and the in-place method `UpdateCrumbs`, which is proved to
  compute `Step` with the oldest-first index.
- `Interceptor` (interceptor.dfy): the session, name resolution, parameter filtering,
  crumb construction, default resolution, trail lookup-or-create and `doIntercept`.

Collaborators whose source is not part of this model are parameters:

- comparators are functions `(Crumb, Option<Crumb>) -> int`, where 0 means "same step";
- `ValueStack.findValue` is `findValue: string -> Option<string>`;
- `Pattern.matches` is `patternMatches: (string, string) -> bool`;
- `plugin.lookupComparatorByClass` is `lookup: string -> Comparator`;
- the `new Date()` timestamp is an unconstrained `timestamp: int` argument.

`BreadCrumbTrail`, `Crumb`, `RewindMode` and the comparator classes are not part of
this model. What the interceptor relies on is stated explicitly instead:

- `indexOf(c, cmp)` returns an index `k` with `cmp(c, crumbs[k]) == 0`, or -1 when no
  entry is equal (`Crumbs.IsIndexOf`). The trail's `IndexOf` method scans oldest-first.
- `rewindAt(k)` keeps the entries at indices `0..k` (`requires -1 <= k < |crumbs|`).
- `trail.getCrumbs()` (line 216) returns the trail's own live stack, and `rewindAt`
  truncates that same stack object rather than installing a new one. The model has a
  single `crumbs` field, so the push and the eviction at lines 233-236 act on the rewound
  stack. If `rewindAt` replaced the stack, the Java code would push onto a detached object;
  the model does not capture that case.
- Of `RewindMode`, only `AUTO` and `DEFAULT` appear in the interceptor. The third
  constant is called `NEVER` here.
- The Java field `Crumb.method` is `actionMethod`, because `method` is a Dafny keyword.

Details of the code the model follows:

- The resolved rewind mode can itself be `DEFAULT`, when the interceptor's default was set
  to it. It then behaves as "no rewind", because the code tests only for `AUTO`.
- The `catchInternalException` flag has a getter and a setter, but no logic in this file
  consults it. No failure is swallowed: the failed cast of a foreign session value propagates, and is returned as an
  `Error` by `DoIntercept`.
- A new trail is named `$arianna`, the name the code sets.
- The creation of the trail is not exclusive per session in the code. There is a TODO at
  line 167, and the lock covers only the creation, not the check.

Reference definitions (they have no contract of their own, and the lemmas below state
their properties). All cite `BreadCrumbInterceptor.java`:

- `TrailUpdate.Step`: the stack update, lines 221-243.
- `Interceptor.ResolveName`: the crumb's display name, lines 294-299.
- `Interceptor.CrumbFor`: the crumb makeCrumb builds, lines 287-302.
- `Interceptor.Snapshot` and `Interceptor.ParamsFor`: the parameter snapshot, lines 313-331.

## Model

| member | source | states |
|---|---|---|
| Crumbs.Last | struts2-arianna-plugin/src/main/java/xyz/timedrain/arianna/plugin/BreadCrumbInterceptor.java:221 | the top is None exactly for the empty stack, else the newest entry |
| Crumbs.FirstMatch | struts2-arianna-plugin/src/main/java/xyz/timedrain/arianna/plugin/BreadCrumbInterceptor.java:227 | meets the indexOf assumption: an index of an equal entry with no equal entry before it, or -1 when no entry is equal |
| Trail.FirstMatchIsEarliest | struts2-arianna-plugin/src/main/java/xyz/timedrain/arianna/plugin/BreadCrumbInterceptor.java:227 | an index that meets the indexOf assumption and has no equal entry before it is FirstMatch: the earliest match is unique |
| Trail.BreadCrumbTrail.constructor | struts2-arianna-plugin/src/main/java/xyz/timedrain/arianna/plugin/BreadCrumbInterceptor.java:171-173 | a new trail has the given name and bound and an empty stack |
| Trail.BreadCrumbTrail.IndexOf | struts2-arianna-plugin/src/main/java/xyz/timedrain/arianna/plugin/BreadCrumbInterceptor.java:227 | the oldest-first scan returns an index meeting the indexOf assumption, the earliest one |
| Trail.BreadCrumbTrail.RewindAt | struts2-arianna-plugin/src/main/java/xyz/timedrain/arianna/plugin/BreadCrumbInterceptor.java:229-231 | keeps exactly the entries 0..k, name and bound untouched |
| TrailUpdate.Evict | struts2-arianna-plugin/src/main/java/xyz/timedrain/arianna/plugin/BreadCrumbInterceptor.java:235-236 | removes one entry, the oldest, exactly when the stack is over the bound; the rest is an unchanged suffix |
| TrailUpdate.ReplaceTop | struts2-arianna-plugin/src/main/java/xyz/timedrain/arianna/plugin/BreadCrumbInterceptor.java:238-242 | comparator-equal to a non-empty top: same size, current on top, every entry below unchanged |
| TrailUpdate.RefreshOfEmpty | struts2-arianna-plugin/src/main/java/xyz/timedrain/arianna/plugin/BreadCrumbInterceptor.java:239-242 | comparator-equal to the absent top of an empty stack: the stack stays empty, nothing is pushed |
| TrailUpdate.DuplicateBelowTop | struts2-arianna-plugin/src/main/java/xyz/timedrain/arianna/plugin/BreadCrumbInterceptor.java:221-227 | when the top differs, a duplicate reported by indexOf lies strictly below the top |
| TrailUpdate.PushedOnTop | struts2-arianna-plugin/src/main/java/xyz/timedrain/arianna/plugin/BreadCrumbInterceptor.java:226-236 | when the top differs and the bound is positive, current is the new top, whatever the mode and index |
| TrailUpdate.StaysBounded | struts2-arianna-plugin/src/main/java/xyz/timedrain/arianna/plugin/BreadCrumbInterceptor.java:233-236 | a stack within maxCrumbs before an update is within it after |
| TrailUpdate.PushWithoutRewind | struts2-arianna-plugin/src/main/java/xyz/timedrain/arianna/plugin/BreadCrumbInterceptor.java:227-236 | without AUTO rewind, the result is old + [current], less its first entry exactly when that exceeds maxCrumbs; deeper duplicates stay |
| TrailUpdate.RewindToDuplicate | struts2-arianna-plugin/src/main/java/xyz/timedrain/arianna/plugin/BreadCrumbInterceptor.java:227-236 | AUTO with a duplicate at i, stack within bound: the result is old[..i] + [current], with no eviction |
| TrailUpdate.RepeatedRefresh | struts2-arianna-plugin/src/main/java/xyz/timedrain/arianna/plugin/BreadCrumbInterceptor.java:238-242 | two consecutive refreshes equal to the top leave the size as before, with the second crumb on top |
| TrailUpdate.RewindCollapsesHistory | struts2-arianna-plugin/src/main/java/xyz/timedrain/arianna/plugin/BreadCrumbInterceptor.java:227-236 | on [a, b, c] with a crumb equal to b only, AUTO gives [a, b2] and no rewind gives [a, b, c, b2] |
| TrailUpdate.OldestEvicted | struts2-arianna-plugin/src/main/java/xyz/timedrain/arianna/plugin/BreadCrumbInterceptor.java:233-236 | with bound 3, a new crumb pushed onto [a, b, c] gives [b, c, d] |
| TrailUpdate.RunStaysBounded | struts2-arianna-plugin/src/main/java/xyz/timedrain/arianna/plugin/BreadCrumbInterceptor.java:216-245 | any sequence of updates keeps a trail that starts within maxCrumbs within it |
| TrailUpdate.UpdateCrumbs | struts2-arianna-plugin/src/main/java/xyz/timedrain/arianna/plugin/BreadCrumbInterceptor.java:216-245 | the in-place update of the trail's stack leaves exactly Step of the old stack, with the index indexOf returns |
| Interceptor.ExpressionIsWrapped | struts2-arianna-plugin/src/main/java/xyz/timedrain/arianna/plugin/BreadCrumbInterceptor.java:294 | a name is evaluated exactly when it is %{ e } for some text e |
| Interceptor.ResolveWrapped | struts2-arianna-plugin/src/main/java/xyz/timedrain/arianna/plugin/BreadCrumbInterceptor.java:294-299 | the name %{ e } resolves to the value found for e, shown as null when it is null |
| Interceptor.ResolveLiteral | struts2-arianna-plugin/src/main/java/xyz/timedrain/arianna/plugin/BreadCrumbInterceptor.java:294-299 | any name that is not wrapped is used verbatim |
| Interceptor.Matches | struts2-arianna-plugin/src/main/java/xyz/timedrain/arianna/plugin/BreadCrumbInterceptor.java:335-342 | true exactly when some drop pattern matches the name |
| Interceptor.DroppedNeverKept | struts2-arianna-plugin/src/main/java/xyz/timedrain/arianna/plugin/BreadCrumbInterceptor.java:317-322 | a parameter whose name a drop pattern matches is never in the snapshot |
| Interceptor.HandleActionParameters | struts2-arianna-plugin/src/main/java/xyz/timedrain/arianna/plugin/BreadCrumbInterceptor.java:307-333 | the snapshot holds key k iff k is a request parameter no drop pattern matches, with its values unchanged; an unrecognised source gives None |
| Interceptor.MakeCrumb | struts2-arianna-plugin/src/main/java/xyz/timedrain/arianna/plugin/BreadCrumbInterceptor.java:283-305 | the crumb carries the proxy's namespace, action and method, the timestamp, the resolved name and the parameter snapshot |
| Interceptor.ResolveRewindMode | struts2-arianna-plugin/src/main/java/xyz/timedrain/arianna/plugin/BreadCrumbInterceptor.java:194-202 | the annotation's mode wins unless it is DEFAULT; the result is DEFAULT only if the default is |
| Interceptor.ResolveComparator | struts2-arianna-plugin/src/main/java/xyz/timedrain/arianna/plugin/BreadCrumbInterceptor.java:195-206 | BreadCrumb.NULL selects the default comparator, any other class the looked-up one |
| Interceptor.BreadCrumbInterceptor.constructor | struts2-arianna-plugin/src/main/java/xyz/timedrain/arianna/plugin/BreadCrumbInterceptor.java:63-65 | the default rewind mode is AUTO; the default comparator is the given one (a NameComparator in the source) and the bound is the plugin's |
| Interceptor.BreadCrumbInterceptor.GetBreadCrumbTrail | struts2-arianna-plugin/src/main/java/xyz/timedrain/arianna/plugin/BreadCrumbInterceptor.java:161-181 | returns the stored trail with the session unchanged; or stores and returns a fresh empty $arianna trail with the plugin's bound; a foreign value under the key fails the cast |
| Interceptor.BreadCrumbInterceptor.UpdateWithOverrides | struts2-arianna-plugin/src/main/java/xyz/timedrain/arianna/plugin/BreadCrumbInterceptor.java:193-245 | the stack becomes Step of the old one under the annotation's mode and comparator, or the defaults where the annotation gives the sentinels |
| Interceptor.BreadCrumbInterceptor.UpdateStaysBounded | struts2-arianna-plugin/src/main/java/xyz/timedrain/arianna/plugin/BreadCrumbInterceptor.java:233-236 | a stack within its bound stays within it after the update under the resolved mode and comparator |
| Interceptor.BreadCrumbInterceptor.RecordCrumb | struts2-arianna-plugin/src/main/java/xyz/timedrain/arianna/plugin/BreadCrumbInterceptor.java:191-245 | a foreign session value fails the cast and nothing changes; a stored trail keeps its name and bound, its stack becomes the Step of the old one and stays within a bound it was within; otherwise a fresh empty $arianna trail with the plugin's bound is stored and updated |
| Interceptor.BreadCrumbInterceptor.DoIntercept | struts2-arianna-plugin/src/main/java/xyz/timedrain/arianna/plugin/BreadCrumbInterceptor.java:183-248 | no annotation: nothing changes; otherwise the crumb makeCrumb builds is recorded as RecordCrumb states, the stored trail keeping its name and bound and staying within a bound it was within |

## Left out

- `intercept` and the before/after-action `PreResultListener` timing (lines 121-152):
  this is framework control flow. `BreadCrumb.afterAction` is carried but not read.
- `processAnnotation` (lines 251-281): reflection and annotation lookup.
- The `synchronized` blocks on `LOCK` and on the stack (lines 170, 218): each update is one
  sequential step. Concurrent requests on one session are not modelled.
- The profiling and logging calls (`UtilTimerStack`, `LOG`): they have no effect on data.
- The deprecated `BCLegacy` configuration (lines 86-104, 349-355), the getters and setters
  for the defaults (lines 67-81, 113-119) and `init`: configuration glue.
- The comparator classes (`NameComparator` and the others), `ValueStack.findValue`,
  `Pattern.matches` and `lookupComparatorByClass`: these are foreign code, taken as
  parameters. None of them is modelled as throwing. That covers:
  - a comparator lookup that fails;
  - an invalid regular expression in `Pattern.matches`, where the early return of `matches`
    (line 338) decides whether a later bad pattern is reached;
  - a failing `findValue`;
  - a comparator that throws. All compares come before the first change to the stack, so
    in the source such a failure leaves the stack unchanged.
- Java null for the proxy's namespace, action or method, and for a session value: not modelled.
  A value's `toString` is taken as given by `findValue`.
- The order in which `HashMap` iterates the parameters is not modelled. The loop picks the
  keys in any order, and its result does not depend on that order.
- The search order of the trail's `indexOf` is not visible. The model scans oldest-first,
  Some properties are proved for any index meeting the `indexOf` assumption: `ReplaceTop`,
  `RefreshOfEmpty`, `DuplicateBelowTop`, `PushedOnTop`, `StaysBounded`, `PushWithoutRewind`,
  `RewindToDuplicate` and `RepeatedRefresh`. The rest use the oldest-first index `FirstMatch`:
  - the method contracts (`UpdateCrumbs` up to `DoIntercept`);
  - `Run` and `RunStaysBounded`;
  - the scenario lemmas `RewindCollapsesHistory` and `OldestEvicted`.
