/** What an element learns from its parent: the viewport extent and the
    parent's resolved maximum width and height. */
module SizeContext {
  import opened Wrappers
  import opened Lengths
  import opened StyleSheet

  datatype Size = Size(rows: int, cols: int)

  /** The parent as seen by an element (a window or another element). */
  datatype Container = Container(size: Size, maxWidth: int, maxHeight: int)

  /** The element's own `max-width` / `max-height` as a number, when it is set
      to something PHP treats as true (not empty and not "0"). */
  function DeclaredMax(style: Style, key: string): Option<int>
    requires MaxDefined(style, key)
  {
    if key in style && Truthy(style[key]) then ParseInt(style[key]) else None
  }

  /** A declared maximum must be an integer literal. */
  predicate MaxDefined(style: Style, key: string)
  {
    key in style && Truthy(style[key]) ==> ParseInt(style[key]).Some?
  }

  /** The effective maximum: the smaller of the element's own declared maximum
      and its parent's, or the parent's alone when the element declares none. */
  function EffectiveMax(style: Style, key: string, parentMax: int): (r: int)
    requires MaxDefined(style, key)
    ensures r <= parentMax
    ensures DeclaredMax(style, key).Some? ==> r <= DeclaredMax(style, key).value
    ensures r == parentMax || (DeclaredMax(style, key).Some? && r == DeclaredMax(style, key).value)
  {
    match DeclaredMax(style, key)
    case Some(own) => if own < parentMax then own else parentMax
    case None => parentMax
  }

  /** Along a chain of nested elements, outermost first, each one clamping
      against the one around it and the first against the window's `rootMax`. */
  function Cascade(chain: seq<Style>, key: string, rootMax: int): int
    requires forall i :: 0 <= i < |chain| ==> MaxDefined(chain[i], key)
    decreases |chain|
  {
    if |chain| == 0 then rootMax
    else EffectiveMax(chain[|chain| - 1], key, Cascade(chain[..|chain| - 1], key, rootMax))
  }

  /** The innermost element's maximum is the least of the window's maximum and
      every maximum declared on the way down: a constraint never widens
      further down the tree. */
  lemma {:induction false} CascadeIsLeast(chain: seq<Style>, key: string, rootMax: int)
    requires forall i :: 0 <= i < |chain| ==> MaxDefined(chain[i], key)
    ensures Cascade(chain, key, rootMax) <= rootMax
    ensures forall i :: 0 <= i < |chain| && DeclaredMax(chain[i], key).Some? ==>
      Cascade(chain, key, rootMax) <= DeclaredMax(chain[i], key).value
    ensures Cascade(chain, key, rootMax) == rootMax ||
      exists i :: 0 <= i < |chain| && DeclaredMax(chain[i], key).Some? &&
        Cascade(chain, key, rootMax) == DeclaredMax(chain[i], key).value
  {
    if |chain| > 0 {
      var n := |chain| - 1;
      var outer := chain[..n];
      assert forall i :: 0 <= i < n ==> outer[i] == chain[i];
      CascadeIsLeast(outer, key, rootMax);
      var r := Cascade(chain, key, rootMax);
      if r != rootMax && (DeclaredMax(chain[n], key).None? || r != DeclaredMax(chain[n], key).value) {
        var i :| 0 <= i < n && DeclaredMax(outer[i], key).Some? &&
          Cascade(outer, key, rootMax) == DeclaredMax(outer[i], key).value;
        assert r == DeclaredMax(chain[i], key).value;
      }
    }
  }
}
