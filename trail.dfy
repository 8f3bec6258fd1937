/**
  * One session's breadcrumb trail: a name, a size bound and a stack of crumbs kept
  * oldest-first (the newest crumb is the top). The trail class is a collaborator of the
  * interceptor; its indexOf and rewindAt are modelled with the semantics the interceptor's
  * call sites rely on.
  */
module Trail {
  import opened Crumbs

  /** FirstMatch is the only index that meets IsIndexOf with no equal entry before it. */
  lemma FirstMatchIsEarliest(s: seq<Crumb>, c: Crumb, cmp: Comparator, k: int)
    requires IsIndexOf(s, c, cmp, k)
    requires forall j :: 0 <= j < k ==> !SameStep(cmp, c, s[j])
    ensures k == FirstMatch(s, c, cmp)
  {
  }

  class BreadCrumbTrail {
    var name: string
    var maxCrumbs: int
    var crumbs: seq<Crumb>

    /** A new trail with the given name and bound and an empty stack. */
    constructor (name: string, maxCrumbs: int)
      ensures this.name == name && this.maxCrumbs == maxCrumbs && crumbs == []
    {
      this.name := name;
      this.maxCrumbs := maxCrumbs;
      crumbs := [];
    }

    /** indexOf(c, cmp): scans the stack oldest-first for an entry equal to c under cmp. */
    method IndexOf(c: Crumb, cmp: Comparator) returns (k: int)
      ensures IsIndexOf(crumbs, c, cmp, k)
      ensures forall j :: 0 <= j < k ==> !SameStep(cmp, c, crumbs[j])
      ensures k == FirstMatch(crumbs, c, cmp)
    {
      var i := 0;
      while i < |crumbs|
        invariant 0 <= i <= |crumbs|
        invariant forall j :: 0 <= j < i ==> !SameStep(cmp, c, crumbs[j])
      {
        if SameStep(cmp, c, crumbs[i]) {
          FirstMatchIsEarliest(crumbs, c, cmp, i);
          return i;
        }
        i := i + 1;
      }
      FirstMatchIsEarliest(crumbs, c, cmp, -1);
      return -1;
    }

    /** rewindAt(k): keeps the entries at indices 0..k and drops every later one. */
    method RewindAt(k: int)
      requires -1 <= k < |crumbs|
      modifies this`crumbs
      ensures crumbs == old(crumbs)[..k + 1]
    {
      crumbs := crumbs[..k + 1];
    }
  }
}
