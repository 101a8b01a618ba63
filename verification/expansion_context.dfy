/**
 * The logical parent ("context") of an element that lives in an expansion file.
 *
 * An expanded element may carry an explicitly stored context (user data written when the
 * expansion is injected). Otherwise its context is looked up, in a fixed order: the
 * macro call the file was expanded from, then the module that includes the file through
 * `include!`, and finally the structural (stub) parent. The lookups that need indices are
 * skipped while indices are unavailable ("dumb mode") or when the caller forbids them.
 */
module ExpansionContext {
  import opened Wrappers

  /** A PSI element as far as this code cares: a Rust file or some other element. */
  datatype PsiRef = FileRef(file: nat) | ElementRef(id: nat)

  /**
   * What the index-backed collaborators answer, as inputs:
   *  - `dumb`: indices are being rebuilt;
   *  - `macroCallContext[f]`: the context of the macro call expanded into file `f`;
   *  - `includedByIncludeMacro`: the files that some `include!` pulls in;
   *  - `includingModule[f]`: the module holding the `include!` call that includes `f`.
   */
  datatype ContextEnv = ContextEnv(
    dumb: bool,
    macroCallContext: map<nat, PsiRef>,
    includedByIncludeMacro: set<nat>,
    includingModule: map<nat, PsiRef>)

  /** The index lookups run only for a file parent, with index access allowed, outside dumb mode. */
  predicate IndexLookupAllowed(parent: Option<PsiRef>, env: ContextEnv, isIndexAccessForbidden: bool) {
    parent.Some? && parent.value.FileRef? && !isIndexAccessForbidden && !env.dumb
  }

  /** The first present entry of `candidates`, in order. */
  function FirstPresent(candidates: seq<Option<PsiRef>>): (r: Option<PsiRef>)
    ensures r.Some? <==> exists k :: 0 <= k < |candidates| && candidates[k].Some?
    ensures r.Some? ==>
      exists k :: 0 <= k < |candidates| && candidates[k] == r && forall i :: 0 <= i < k ==> candidates[i].None?
  {
    if candidates == [] then None
    else if candidates[0].Some? then candidates[0]
    else
      var r := FirstPresent(candidates[1..]);
      assert r.Some? ==>
        exists k :: 0 <= k < |candidates| && candidates[k] == r && forall i :: 0 <= i < k ==> candidates[i].None? by {
        if r.Some? {
          var k :| 0 <= k < |candidates[1..]| && candidates[1..][k] == r && forall i :: 0 <= i < k ==> candidates[1..][i].None?;
          assert candidates[k + 1] == r;
          assert forall i :: 0 <= i < k + 1 ==> candidates[i].None? by {
            forall i | 0 <= i < k + 1 ensures candidates[i].None? {
              if i > 0 {
                assert candidates[i] == candidates[1..][i - 1];
              }
            }
          }
        }
      }
      assert (exists k :: 0 <= k < |candidates| && candidates[k].Some?) ==> r.Some? by {
        if exists k :: 0 <= k < |candidates| && candidates[k].Some? {
          var k :| 0 <= k < |candidates| && candidates[k].Some?;
          assert candidates[1..][k - 1] == candidates[k];
        }
      }
      r
  }

  /** The sources of a context, from the most to the least authoritative. */
  function ContextCandidates(stored: Option<PsiRef>, parent: Option<PsiRef>, env: ContextEnv, isIndexAccessForbidden: bool)
    : (r: seq<Option<PsiRef>>)
    ensures |r| == 4 && r[0] == stored && r[3] == parent
    ensures !IndexLookupAllowed(parent, env, isIndexAccessForbidden) ==> r[1].None? && r[2].None?
  {
    var allowed := IndexLookupAllowed(parent, env, isIndexAccessForbidden);
    var f := if parent.Some? && parent.value.FileRef? then parent.value.file else 0;
    [ stored,
      if allowed && f in env.macroCallContext then Some(env.macroCallContext[f]) else None,
      if allowed && f in env.includedByIncludeMacro && f in env.includingModule then Some(env.includingModule[f]) else None,
      parent ]
  }

  /** An element of an expansion file: its stored context (user data) and its stub parent. */
  class ExpandedPsiElement {
    var expansionContext: Option<PsiRef>
    const stubParent: Option<PsiRef>

    constructor(stubParent: Option<PsiRef>)
      ensures this.stubParent == stubParent && expansionContext.None?
    {
      this.stubParent := stubParent;
      expansionContext := None;
    }

    /** Stores `context` as this element's context. */
    method SetExpandedElementContext(context: PsiRef)
      modifies this
      ensures expansionContext == Some(context)
    {
      expansionContext := Some(context);
    }

    /**
     * Sets the context; from then on it is the element's context whatever the indices say.
     * Propagating cached data to the containing file is outside this model.
     */
    method SetContext(context: PsiRef)
      modifies this
      ensures expansionContext == Some(context)
      ensures forall env, isIndexAccessForbidden :: GetContextImpl(env, isIndexAccessForbidden) == Some(context)
    {
      SetExpandedElementContext(context);
    }

    /**
     * The stored context, else (for a file parent, index access allowed, not dumb) the
     * context of the macro call the file was expanded from, else the module including the
     * file, else the stub parent.
     */
    function GetContextImpl(env: ContextEnv, isIndexAccessForbidden: bool): (r: Option<PsiRef>)
      reads this
      ensures expansionContext.Some? ==> r == expansionContext
      ensures expansionContext.None? && !IndexLookupAllowed(stubParent, env, isIndexAccessForbidden) ==> r == stubParent
      ensures r.None? ==> expansionContext.None? && stubParent.None?
    {
      if expansionContext.Some? then expansionContext
      else if IndexLookupAllowed(stubParent, env, isIndexAccessForbidden) then
        var f := stubParent.value.file;
        if f in env.macroCallContext then Some(env.macroCallContext[f])
        else if f in env.includedByIncludeMacro && f in env.includingModule then Some(env.includingModule[f])
        else stubParent
      else stubParent
    }

    /** The lookup is the first present candidate of the fixed precedence order. */
    lemma GetContextFollowsPrecedence(env: ContextEnv, isIndexAccessForbidden: bool)
      ensures GetContextImpl(env, isIndexAccessForbidden)
        == FirstPresent(ContextCandidates(expansionContext, stubParent, env, isIndexAccessForbidden))
    {
      var c := ContextCandidates(expansionContext, stubParent, env, isIndexAccessForbidden);
      assert FirstPresent(c[3..]) == stubParent by {
        assert c[3..][1..] == [];
      }
      assert FirstPresent(c[2..]) == if c[2].Some? then c[2] else stubParent by {
        assert c[2..][1..] == c[3..];
      }
      assert FirstPresent(c[1..]) == if c[1].Some? then c[1] else FirstPresent(c[2..]) by {
        assert c[1..][1..] == c[2..];
      }
    }
  }
}
