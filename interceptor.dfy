/**
  * BreadCrumbInterceptor: for an action annotated with @BreadCrumb it builds a crumb for
  * the current request, finds or creates the session's trail and integrates the crumb into
  * it. The framework's collaborators are parameters: the OGNL value stack lookup
  * (findValue), java.util.regex matching (patternMatches) and the plugin's comparator
  * registry (lookup).
  */
module Interceptor {
  import opened Wrappers
  import opened Crumbs
  import opened Trail
  import opened TrailUpdate

  /** The session key under which the trail is stored. */
  const CRUMB_KEY: string := "xyz.timedrain.arianna.plugin.BreadCrumbInterceptor:CRUMBS"

  /** The name given to a trail created for a session. */
  const TRAIL_NAME: string := "$arianna"

  /** A session attribute: the trail, or any other object stored under the same key. */
  datatype SessionEntry = TrailEntry(trail: BreadCrumbTrail) | OtherEntry

  /** The user's session: a mutable key-value map. */
  class Session {
    var attributes: map<string, SessionEntry>

    constructor (attributes: map<string, SessionEntry>)
      ensures this.attributes == attributes
    {
      this.attributes := attributes;
    }
  }

  /** The trails an update may change: the one stored under CRUMB_KEY, if any. */
  ghost function StoredTrails(session: Session): set<BreadCrumbTrail>
    reads session
  {
    if CRUMB_KEY in session.attributes && session.attributes[CRUMB_KEY].TrailEntry?
    then {session.attributes[CRUMB_KEY].trail} else {}
  }

  /** The stack of the trail stored under CRUMB_KEY, or the empty stack when there is none. */
  ghost function StoredCrumbs(session: Session): seq<Crumb>
    reads session, StoredTrails(session)
  {
    if CRUMB_KEY in session.attributes && session.attributes[CRUMB_KEY].TrailEntry?
    then session.attributes[CRUMB_KEY].trail.crumbs else []
  }

  /** Failures that propagate out of the interceptor. */
  datatype Error =
    | SessionEntryNotATrail   // the cast of the value stored under CRUMB_KEY fails

  /** The request parameters: Struts' HttpParameters, or a representation it does not know. */
  datatype ParameterSource = HttpParameters(entries: Params) | UnrecognisedSource

  /** What the interceptor reads of the action invocation and its proxy. */
  datatype Invocation = Invocation(
    namespace: string,
    actionName: string,
    actionMethod: string,
    parameters: ParameterSource)

  /** Pattern.matches(regex, input). */
  type PatternMatcher = (string, string) -> bool

  /** The value stack's findValue(expr), rendered by toString, or None for null. */
  type ValueLookup = string -> Option<string>

  // ---------------------------------------------------------------- crumb name

  predicate StartsWith(s: string, prefix: string) {
    |prefix| <= |s| && s[..|prefix|] == prefix
  }

  predicate EndsWith(s: string, suffix: string) {
    |suffix| <= |s| && s[|s| - |suffix|..] == suffix
  }

  /** A name of the form %{expr}, to be evaluated rather than shown verbatim. */
  predicate IsExpression(name: string) {
    StartsWith(name, "%{") && EndsWith(name, "}")
  }

  /** "" + value: a null value is shown as the text null. */
  function Render(value: Option<string>): string {
    match value
    case None => "null"
    case Some(s) => s
  }

  /** The display name of a crumb built from the annotation's value. */
  function ResolveName(name: string, findValue: ValueLookup): string {
    if IsExpression(name) then
      assert name[1] == '{' && name[|name| - 1] == '}';
      Render(findValue(name[2..|name| - 1]))
    else
      name
  }

  /** The names taken as expressions are exactly those wrapped in %{ and }. */
  lemma ExpressionIsWrapped(name: string)
    ensures IsExpression(name) <==> exists e :: name == "%{" + e + "}"
  {
    if IsExpression(name) {
      assert name[1] == '{' && name[|name| - 1] == '}';
      var e := name[2..|name| - 1];
      assert name == name[..2] + e + name[|name| - 1..];
    }
  }

  /** A wrapped name resolves to the rendered value of the text between the delimiters. */
  lemma ResolveWrapped(e: string, findValue: ValueLookup)
    ensures ResolveName("%{" + e + "}", findValue) == Render(findValue(e))
  {
  }

  /** Any other name is used verbatim. */
  lemma ResolveLiteral(name: string, findValue: ValueLookup)
    requires !IsExpression(name)
    ensures ResolveName(name, findValue) == name
  {
  }

  // ---------------------------------------------------------------- parameters

  /** True when some drop pattern matches the parameter name. */
  predicate MatchesAny(input: string, patterns: seq<string>, patternMatches: PatternMatcher) {
    exists i :: 0 <= i < |patterns| && patternMatches(patterns[i], input)
  }

  /** matches: tries the patterns in order and stops at the first that matches. */
  method Matches(input: string, patterns: seq<string>, patternMatches: PatternMatcher)
    returns (r: bool)
    ensures r <==> MatchesAny(input, patterns, patternMatches)
  {
    for i := 0 to |patterns|
      invariant forall j :: 0 <= j < i ==> !patternMatches(patterns[j], input)
    {
      if patternMatches(patterns[i], input) {
        return true;
      }
    }
    return false;
  }

  /** The parameters kept in a crumb: those no drop pattern matches, values unchanged. */
  function Snapshot(entries: Params, dropParams: seq<string>, patternMatches: PatternMatcher): Params {
    map k | k in entries && !MatchesAny(k, dropParams, patternMatches) :: entries[k]
  }

  /** The snapshot of a parameter source; an unrecognised source gives none (null). */
  function ParamsFor(source: ParameterSource, dropParams: seq<string>,
                     patternMatches: PatternMatcher): Option<Params> {
    match source
    case HttpParameters(entries) => Some(Snapshot(entries, dropParams, patternMatches))
    case UnrecognisedSource => None
  }

  /** A parameter whose name a drop pattern matches is never in the snapshot. */
  lemma DroppedNeverKept(entries: Params, dropParams: seq<string>,
                         patternMatches: PatternMatcher, key: string, i: nat)
    requires i < |dropParams| && patternMatches(dropParams[i], key)
    ensures key !in Snapshot(entries, dropParams, patternMatches)
  {
  }

  /**
    * handleActionParameters: copies every request parameter that no drop pattern matches,
    * with its values; an unrecognised parameter source yields None.
    */
  method HandleActionParameters(source: ParameterSource, dropParams: seq<string>,
                                patternMatches: PatternMatcher)
    returns (r: Option<Params>)
    ensures r.Some? <==> source.HttpParameters?
    ensures r.Some? ==> forall k :: k in r.value <==>
      (k in source.entries && !MatchesAny(k, dropParams, patternMatches))
    ensures r.Some? ==> forall k :: k in r.value ==> r.value[k] == source.entries[k]
    ensures r == ParamsFor(source, dropParams, patternMatches)
  {
    match source
    case UnrecognisedSource =>
      return None;
    case HttpParameters(entries) =>
      var result: Params := map[];
      var pending := entries.Keys;
      while pending != {}
        invariant pending <= entries.Keys
        invariant forall k :: k in result <==>
          (k in entries && k !in pending && !MatchesAny(k, dropParams, patternMatches))
        invariant forall k :: k in result ==> result[k] == entries[k]
        decreases pending
      {
        var key :| key in pending;
        pending := pending - {key};
        var dropped := Matches(key, dropParams, patternMatches);
        if dropped {
          continue;
        }
        result := result[key := entries[key]];
      }
      assert result == Snapshot(entries, dropParams, patternMatches);
      return Some(result);
  }

  // ---------------------------------------------------------------- crumb

  /** The crumb makeCrumb builds for an invocation at the given time. */
  function CrumbFor(inv: Invocation, annotation: BreadCrumb, timestamp: int,
                    findValue: ValueLookup, patternMatches: PatternMatcher): Crumb {
    Crumb(timestamp, inv.namespace, inv.actionName, inv.actionMethod,
          ResolveName(annotation.value, findValue),
          ParamsFor(inv.parameters, annotation.dropParams, patternMatches))
  }

  /** makeCrumb: the proxy's namespace, action and method, the resolved name, the snapshot. */
  method MakeCrumb(inv: Invocation, annotation: BreadCrumb, timestamp: int,
                   findValue: ValueLookup, patternMatches: PatternMatcher)
    returns (c: Crumb)
    ensures c.namespace == inv.namespace && c.action == inv.actionName
    ensures c.actionMethod == inv.actionMethod && c.timestamp == timestamp
    ensures !IsExpression(annotation.value) ==> c.name == annotation.value
    ensures c.params.Some? <==> inv.parameters.HttpParameters?
    ensures c == CrumbFor(inv, annotation, timestamp, findValue, patternMatches)
  {
    var name := annotation.value;
    if StartsWith(name, "%{") && EndsWith(name, "}") {
      assert name[1] == '{' && name[|name| - 1] == '}';
      var value := findValue(name[2..|name| - 1]);
      name := Render(value);
    }
    var params := HandleActionParameters(inv.parameters, annotation.dropParams, patternMatches);
    c := Crumb(timestamp, inv.namespace, inv.actionName, inv.actionMethod, name, params);
  }

  // ---------------------------------------------------------------- defaults

  /** The rewind mode in force: the annotation's, unless it is the DEFAULT sentinel. */
  function ResolveRewindMode(annotated: RewindMode, default: RewindMode): (m: RewindMode)
    ensures m == annotated || m == default
    ensures annotated != DEFAULT ==> m == annotated
    ensures m == DEFAULT ==> default == DEFAULT
  {
    if annotated != DEFAULT then annotated else default
  }

  /** The comparator in force: the looked-up annotation class, unless it is BreadCrumb.NULL. */
  function ResolveComparator(annotated: ComparatorRef, default: Comparator,
                             lookup: string -> Comparator): (c: Comparator)
    ensures annotated.NullComparator? ==> c == default
    ensures annotated.ComparatorClass? ==> c == lookup(annotated.className)
  {
    match annotated
    case NullComparator => default
    case ComparatorClass(name) => lookup(name)
  }

  // ---------------------------------------------------------------- interceptor

  class BreadCrumbInterceptor {
    var defaultRewindMode: RewindMode
    var defaultComparator: Comparator
    /** The plugin's maxCrumbs setting, given to every trail the interceptor creates. */
    var maxCrumbs: int

    /** Configured with the plugin's bound and its default (name) comparator; rewind is AUTO. */
    constructor (maxCrumbs: int, defaultComparator: Comparator)
      ensures this.maxCrumbs == maxCrumbs && this.defaultComparator == defaultComparator
      ensures defaultRewindMode == AUTO
    {
      this.maxCrumbs := maxCrumbs;
      this.defaultComparator := defaultComparator;
      defaultRewindMode := AUTO;
    }

    /**
      * The stack after doIntercept's update: Step of the old stack under the annotation's
      * rewind mode and comparator, or the defaults where the annotation gives the sentinels.
      */
    ghost function Updated(s: seq<Crumb>, current: Crumb, a: BreadCrumb,
                           lookup: string -> Comparator, maxCrumbs: int): seq<Crumb>
      reads this
    {
      var cmp := ResolveComparator(a.comparator, defaultComparator, lookup);
      Step(s, current, cmp, ResolveRewindMode(a.rewind, defaultRewindMode), maxCrumbs,
           FirstMatch(s, current, cmp))
    }

    /** A stack within its bound stays within it after doIntercept's update. */
    lemma UpdateStaysBounded(s: seq<Crumb>, current: Crumb, a: BreadCrumb,
                             lookup: string -> Comparator, maxCrumbs: int)
      requires |s| <= maxCrumbs
      ensures |Updated(s, current, a, lookup, maxCrumbs)| <= maxCrumbs
    {
      var cmp := ResolveComparator(a.comparator, defaultComparator, lookup);
      StaysBounded(s, current, cmp, ResolveRewindMode(a.rewind, defaultRewindMode), maxCrumbs,
                   FirstMatch(s, current, cmp));
    }

    /**
      * getBreadCrumbTrail: the trail stored in the session, or a new empty trail named
      * $arianna with the plugin's bound, stored under CRUMB_KEY. Another object stored
      * under the key makes the cast fail.
      */
    method GetBreadCrumbTrail(session: Session) returns (r: Result<BreadCrumbTrail, Error>)
      modifies session
      ensures CRUMB_KEY in old(session.attributes) ==>
        session.attributes == old(session.attributes) &&
        match old(session.attributes[CRUMB_KEY])
        case TrailEntry(t) => r == Success(t)
        case OtherEntry => r == Failure(SessionEntryNotATrail)
      ensures CRUMB_KEY !in old(session.attributes) ==>
        r.Success? && fresh(r.value) &&
        r.value.name == TRAIL_NAME && r.value.maxCrumbs == maxCrumbs && r.value.crumbs == [] &&
        session.attributes == old(session.attributes)[CRUMB_KEY := TrailEntry(r.value)]
    {
      if CRUMB_KEY in session.attributes {
        match session.attributes[CRUMB_KEY]
        case TrailEntry(t) =>
          return Success(t);
        case OtherEntry =>
          return Failure(SessionEntryNotATrail);
      }
      var trail := new BreadCrumbTrail(TRAIL_NAME, maxCrumbs);
      session.attributes := session.attributes[CRUMB_KEY := TrailEntry(trail)];
      return Success(trail);
    }

    /**
      * doIntercept: builds the crumb, then records it in the session's trail.
      */
    method DoIntercept(session: Session, inv: Invocation, annotation: Option<BreadCrumb>,
                       timestamp: int, findValue: ValueLookup, patternMatches: PatternMatcher,
                       lookup: string -> Comparator)
      returns (err: Option<Error>)
      modifies session, StoredTrails(session)`crumbs
      ensures annotation.None? ==>
        err.None? && session.attributes == old(session.attributes) &&
        StoredCrumbs(session) == old(StoredCrumbs(session))
      ensures annotation.Some? ==>
        Recorded(old(session.attributes), session.attributes, old(StoredCrumbs(session)),
                 CrumbFor(inv, annotation.value, timestamp, findValue, patternMatches),
                 annotation.value, lookup, err)
      ensures CRUMB_KEY in old(session.attributes) &&
              old(session.attributes[CRUMB_KEY]).TrailEntry? ==>
        var t := old(session.attributes[CRUMB_KEY]).trail;
        t.name == old(t.name) && t.maxCrumbs == old(t.maxCrumbs) &&
        (|old(t.crumbs)| <= t.maxCrumbs ==> |t.crumbs| <= t.maxCrumbs)
      ensures annotation.Some? && CRUMB_KEY !in old(session.attributes) ==>
        fresh(session.attributes[CRUMB_KEY].trail)
    {
      if annotation.None? {
        return None;
      }
      var a := annotation.value;
      var current := MakeCrumb(inv, a, timestamp, findValue, patternMatches);
      err := RecordCrumb(session, current, a, lookup);
    }

    /**
      * What recording current leaves behind, given the session attributes before and after
      * and the stack of the stored trail before. A foreign value under CRUMB_KEY fails the
      * cast and nothing changes. A stored trail keeps its name and bound, and its stack
      * becomes Updated of the old one. Otherwise a new $arianna trail with the plugin's bound
      * is stored, holding Updated of the empty stack.
      */
    ghost predicate Recorded(before: map<string, SessionEntry>, after: map<string, SessionEntry>,
                             oldCrumbs: seq<Crumb>, current: Crumb, a: BreadCrumb,
                             lookup: string -> Comparator, err: Option<Error>)
      reads this, if CRUMB_KEY in after && after[CRUMB_KEY].TrailEntry?
                  then {after[CRUMB_KEY].trail} else {}
    {
      if CRUMB_KEY in before && before[CRUMB_KEY].OtherEntry? then
        err == Some(SessionEntryNotATrail) && after == before
      else
        err.None? && CRUMB_KEY in after && after[CRUMB_KEY].TrailEntry? &&
        var t := after[CRUMB_KEY].trail;
        (if CRUMB_KEY in before then after == before
         else after == before[CRUMB_KEY := TrailEntry(t)] &&
              t.name == TRAIL_NAME && t.maxCrumbs == maxCrumbs && oldCrumbs == []) &&
        t.crumbs == Updated(oldCrumbs, current, a, lookup, t.maxCrumbs)
    }

    /**
      * The rest of doIntercept once the crumb is built: get or create the trail, then
      * update its stack under the resolved mode and comparator.
      */
    method RecordCrumb(session: Session, current: Crumb, a: BreadCrumb,
                       lookup: string -> Comparator)
      returns (err: Option<Error>)
      modifies session, StoredTrails(session)`crumbs
      ensures Recorded(old(session.attributes), session.attributes, old(StoredCrumbs(session)),
                       current, a, lookup, err)
      ensures CRUMB_KEY in old(session.attributes) &&
              old(session.attributes[CRUMB_KEY]).TrailEntry? ==>
        var t := old(session.attributes[CRUMB_KEY]).trail;
        t.name == old(t.name) && t.maxCrumbs == old(t.maxCrumbs) &&
        (|old(t.crumbs)| <= t.maxCrumbs ==> |t.crumbs| <= t.maxCrumbs)
      ensures CRUMB_KEY !in old(session.attributes) ==> fresh(session.attributes[CRUMB_KEY].trail)
    {
      ghost var entries := session.attributes;
      ghost var oldCrumbs := StoredCrumbs(session);
      var found := GetBreadCrumbTrail(session);
      if found.Failure? {
        return Some(found.error);
      }
      var trail := found.value;
      ghost var stored := session.attributes;
      if CRUMB_KEY in entries {
        assert trail == entries[CRUMB_KEY].trail && stored == entries;
      } else {
        assert stored == entries[CRUMB_KEY := TrailEntry(trail)];
      }
      assert trail.crumbs == oldCrumbs && stored[CRUMB_KEY].trail == trail;
      UpdateWithOverrides(trail, current, a, lookup);
      assert session.attributes == stored;
      if |oldCrumbs| <= trail.maxCrumbs {
        UpdateStaysBounded(oldCrumbs, current, a, lookup, trail.maxCrumbs);
      }
      return None;
    }

    /**
      * The second half of doIntercept: the annotation's rewind mode and comparator
      * override the defaults unless they are the sentinels, then the stack is updated.
      */
    method UpdateWithOverrides(trail: BreadCrumbTrail, current: Crumb, a: BreadCrumb,
                               lookup: string -> Comparator)
      modifies trail`crumbs
      ensures trail.crumbs == Updated(old(trail.crumbs), current, a, lookup, trail.maxCrumbs)
    {
      var mode := defaultRewindMode;
      var comparator := defaultComparator;
      if a.rewind != DEFAULT {
        mode := a.rewind;
      }
      if a.comparator != NullComparator {
        comparator := lookup(a.comparator.className);
      }
      UpdateCrumbs(trail, current, comparator, mode);
    }
  }
}
