/** The class helpers of vjs (vanilla.js:56-93), on an element whose only
    modelled state is its `className` string. */
module Vanilla {
  import opened ClassTokens
  import opened ClassName

  class Element {
    var className: string

    constructor (className: string)
      ensures this.className == className
    {
      this.className := className;
    }

    /** hasClass (vanilla.js:56-58): an empty class string is falsy and
        short-circuits; otherwise the pattern `(\s|^)cl(\s|$)` is tested. */
    function HasClass(cl: string): (r: bool)
      reads this
      requires ValidToken(cl)
      ensures r <==> (exists p, e :: PatternAt(className, cl, p, e))
      ensures r <==> Occurs(className, cl)
      ensures r <==> cl in Tokens(className)
      ensures className == [] ==> !r
    {
      OccursIffToken(className, cl);
      PatternIffOccurs(className, cl);
      className != [] && FirstMatch(className, cl, 0).Some?
    }

    /** addClass (vanilla.js:65-69). */
    method AddClass(cl: string)
      requires ValidToken(cl)
      modifies this
      ensures className == Added(old(className), cl)
      ensures HasClass(cl)
      ensures old(HasClass(cl)) ==> className == old(className)
      ensures !old(HasClass(cl)) ==> Tokens(className) == Tokens(old(className)) + [cl]
    {
      AddedTokens(className, cl);
      if !HasClass(cl) {
        className := className + " " + cl;
      }
    }

    /** removeClass (vanilla.js:76-79). */
    method RemoveClass(cl: string)
      requires ValidToken(cl)
      modifies this
      ensures className == Removed(old(className), cl)
      ensures className == [] || (!IsSpace(className[0]) && !IsSpace(className[|className| - 1]))
      ensures Tokens(className) == RemoveFirst(Tokens(old(className)), cl)
    {
      var r := Removed(className, cl);
      RemovedTokens(className, cl);
      className := r;
    }

    /** toggleClass (vanilla.js:87-93). */
    method ToggleClass(cl: string)
      requires ValidToken(cl)
      modifies this
      ensures className == Toggled(old(className), cl)
      ensures old(HasClass(cl)) ==> className == Removed(old(className), cl)
      ensures !old(HasClass(cl)) ==> className == Added(old(className), cl)
      ensures Count(old(className), cl) <= 1 ==> HasClass(cl) == !old(HasClass(cl))
    {
      ghost var before := className;
      if HasClass(cl) {
        RemoveClass(cl);
      } else {
        AddClass(cl);
      }
      if Count(before, cl) <= 1 {
        ToggleFlips(before, cl);
      }
    }
  }

  /** Two toggles in a row restore hasClass of a name that occurs at most once. */
  method ToggleTwiceRestores(el: Element, cl: string)
    requires ValidToken(cl) && Count(el.className, cl) <= 1
    modifies el
    ensures el.HasClass(cl) == old(el.HasClass(cl))
  {
    ToggleFlips(el.className, cl);
    el.ToggleClass(cl);
    el.ToggleClass(cl);
  }
}
