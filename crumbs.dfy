/**
  * The entities the interceptor works with: a Crumb (one navigation step), the rewind
  * policy, the comparator capability and the @BreadCrumb annotation's attributes.
  * Crumb, RewindMode, the comparators and BreadCrumbTrail.indexOf are collaborators whose
  * source is not part of this model; what the interceptor relies on is written out here.
  */
module Crumbs {
  import opened Wrappers

  /** Request parameters as the snapshot keeps them: name to its ordered values. */
  type Params = map<string, seq<string>>

  /**
    * One navigation step; the fields are the ones makeCrumb assigns. The Java field
    * `method` is called `actionMethod` here, `timestamp` is milliseconds since the epoch,
    * and `params` is None where the Java field is null.
    */
  datatype Crumb = Crumb(
    timestamp: int,
    namespace: string,
    action: string,
    actionMethod: string,
    name: string,
    params: Option<Params>)

  /** Only AUTO and the DEFAULT sentinel are distinguished by the interceptor. */
  datatype RewindMode = AUTO | NEVER | DEFAULT

  /**
    * A Comparator<Crumb>: compare(current, other) where other may be absent (null);
    * the two crumbs count as the same step exactly when the result is 0.
    */
  type Comparator = (Crumb, Option<Crumb>) -> int

  /** The class named in @BreadCrumb(comparator = ...): the NULL sentinel or a class name. */
  datatype ComparatorRef = NullComparator | ComparatorClass(className: string)

  /** The attributes of a @BreadCrumb annotation that the interceptor reads. */
  datatype BreadCrumb = BreadCrumb(
    value: string,
    rewind: RewindMode,
    comparator: ComparatorRef,
    dropParams: seq<string>,
    afterAction: bool)

  /** The top of a stack kept oldest-first, or None when it is empty. */
  function Last(s: seq<Crumb>): (r: Option<Crumb>)
    ensures r.None? <==> s == []
    ensures r.Some? ==> r.value == s[|s| - 1] && r.value in s
  {
    if s == [] then None else Some(s[|s| - 1])
  }

  predicate SameStep(cmp: Comparator, c: Crumb, other: Crumb) {
    cmp(c, Some(other)) == 0
  }

  /**
    * What the interceptor assumes of BreadCrumbTrail.indexOf(c, cmp): k is the index of an
    * entry the comparator reports equal to c, or -1 when there is none.
    */
  predicate IsIndexOf(s: seq<Crumb>, c: Crumb, cmp: Comparator, k: int) {
    if k == -1 then forall j :: 0 <= j < |s| ==> !SameStep(cmp, c, s[j])
    else 0 <= k < |s| && SameStep(cmp, c, s[k])
  }

  /**
    * The earliest (oldest) entry equal to c under cmp, or -1: one choice of index that
    * meets IsIndexOf, the one the trail's IndexOf returns.
    */
  function FirstMatch(s: seq<Crumb>, c: Crumb, cmp: Comparator): (k: int)
    ensures IsIndexOf(s, c, cmp, k)
    ensures forall j :: 0 <= j < k ==> !SameStep(cmp, c, s[j])
    ensures k == -1 || k < |s|
  {
    if s == [] then -1
    else if SameStep(cmp, c, s[0]) then 0
    else
      var k := FirstMatch(s[1..], c, cmp);
      if k == -1 then -1 else k + 1
  }
}
