/**
 Capping the number of distinct cell styles of a remote preview in place, and
 the validation the capped cells then pass. The style type is a parameter.
 */
module PreviewStyles {
  const MAX_STYLES: nat := 1024

  datatype Cell<S> = Cell(rune: int, continuation: bool, style: S)

  function Styles<S>(cells: seq<Cell<S>>): set<S> {
    set c | c in cells :: c.style
  }

  /** The styles that survive: the fallback and then the others, first come, while there is room. */
  function Kept<S>(cells: seq<Cell<S>>, fallback: S): set<S> {
    if cells == [] then {fallback}
    else
      var before := Kept(cells[..|cells| - 1], fallback);
      if |before| < MAX_STYLES then before + {cells[|cells| - 1].style} else before
  }

  function Restyle<S(==)>(c: Cell<S>, kept: set<S>, fallback: S): Cell<S> {
    if c.style in kept then c else c.(style := fallback)
  }

  /** The cells after capping. */
  function Capped<S(==)>(cells: seq<Cell<S>>, fallback: S): (r: seq<Cell<S>>)
    ensures |r| == |cells|
  {
    if |Styles(cells)| <= MAX_STYLES then cells
    else seq(|cells|, i requires 0 <= i < |cells| => Restyle(cells[i], Kept(cells, fallback), fallback))
  }

  // ----- The surviving styles

  lemma {:induction false} KeptFits<S>(cells: seq<Cell<S>>, fallback: S)
    ensures fallback in Kept(cells, fallback) && |Kept(cells, fallback)| <= MAX_STYLES
    ensures Kept(cells, fallback) <= Styles(cells) + {fallback}
  {
    if cells != [] {
      KeptFits(cells[..|cells| - 1], fallback);
    }
  }

  /** With room to spare, everything survives. */
  lemma {:induction false} KeptAllWithRoom<S>(cells: seq<Cell<S>>, fallback: S)
    requires |Kept(cells, fallback)| < MAX_STYLES
    ensures Styles(cells) <= Kept(cells, fallback)
  {
    if cells != [] {
      var n := |cells| - 1;
      KeptGrows(cells, fallback, n);
      SubsetSize(Kept(cells[..n], fallback), Kept(cells, fallback));
      KeptAllWithRoom(cells[..n], fallback);
      assert cells == cells[..n] + [cells[n]];
    }
  }

  lemma SubsetSize<T>(a: set<T>, b: set<T>)
    requires a <= b
    ensures |a| <= |b|
  {
    if a != {} {
      var x :| x in a;
      SubsetSize(a - {x}, b - {x});
    }
  }

  lemma {:induction false} KeptGrows<S>(cells: seq<Cell<S>>, fallback: S, i: nat)
    requires i <= |cells|
    ensures Kept(cells[..i], fallback) <= Kept(cells, fallback)
    decreases |cells|
  {
    if i == |cells| {
      assert cells[..i] == cells;
    } else {
      var n := |cells| - 1;
      KeptGrows(cells[..n], fallback, i);
      assert cells[..n][..i] == cells[..i];
    }
  }

  /** When degradation is needed every place is used. */
  lemma KeptUsesEveryPlace<S>(cells: seq<Cell<S>>, fallback: S)
    requires |Styles(cells)| > MAX_STYLES
    ensures |Kept(cells, fallback)| == MAX_STYLES
  {
    KeptFits(cells, fallback);
    if |Kept(cells, fallback)| < MAX_STYLES {
      KeptAllWithRoom(cells, fallback);
      SubsetSize(Styles(cells), Kept(cells, fallback));
    }
  }

  /** Once the style of cell `i` is turned away, the set never grows again. */
  lemma {:induction false} FullStaysFull<S>(cells: seq<Cell<S>>, fallback: S, i: nat)
    requires i <= |cells| && |Kept(cells[..i], fallback)| >= MAX_STYLES
    ensures Kept(cells, fallback) == Kept(cells[..i], fallback)
    decreases |cells|
  {
    if i == |cells| {
      assert cells[..i] == cells;
    } else {
      var n := |cells| - 1;
      assert cells[..n][..i] == cells[..i];
      FullStaysFull(cells[..n], fallback, i);
    }
  }

  lemma KeptSnoc<S>(cells: seq<Cell<S>>, fallback: S, i: nat)
    requires i < |cells|
    ensures var before := Kept(cells[..i], fallback);
            Kept(cells[..i + 1], fallback) == if |before| < MAX_STYLES then before + {cells[i].style} else before
  {
    assert cells[..i + 1][..i] == cells[..i];
  }

  /** A style is kept in the end exactly when it is kept at the cell where it is met. */
  lemma KeptWhenMet<S>(cells: seq<Cell<S>>, fallback: S, i: nat)
    requires i < |cells|
    ensures cells[i].style in Kept(cells, fallback) <==> cells[i].style in Kept(cells[..i + 1], fallback)
  {
    KeptSnoc(cells, fallback, i);
    KeptGrows(cells, fallback, i + 1);
    if |Kept(cells[..i], fallback)| >= MAX_STYLES {
      FullStaysFull(cells, fallback, i);
    }
  }

  /** First come, first kept: after a style is turned away only styles met before it survive. */
  lemma FirstComeFirstKept<S>(cells: seq<Cell<S>>, fallback: S, i: nat)
    requires i < |cells| && cells[i].style !in Kept(cells, fallback)
    ensures Kept(cells, fallback) <= Styles(cells[..i]) + {fallback}
  {
    KeptWhenMet(cells, fallback, i);
    KeptSnoc(cells, fallback, i);
    FullStaysFull(cells, fallback, i);
    KeptFits(cells[..i], fallback);
  }

  // ----- What capping promises

  lemma CappedFits<S>(cells: seq<Cell<S>>, fallback: S)
    ensures |Styles(Capped(cells, fallback))| <= 1024
  {
    if |Styles(cells)| > MAX_STYLES {
      KeptFits(cells, fallback);
      SubsetSize(Styles(Capped(cells, fallback)), Kept(cells, fallback));
    }
  }

  /** Lossless exactly when the styles already fit. */
  lemma UnchangedExactlyWhenFits<S>(cells: seq<Cell<S>>, fallback: S)
    ensures Capped(cells, fallback) == cells <==> |Styles(cells)| <= 1024
  {
    CappedFits(cells, fallback);
  }

  lemma CappingTwiceIsCappingOnce<S>(cells: seq<Cell<S>>, fallback: S)
    ensures Capped(Capped(cells, fallback), fallback) == Capped(cells, fallback)
  {
    CappedFits(cells, fallback);
  }

  // ----- Validation of the cell run

  /** Every rune and style is displayable and continuations follow double-width cells on their row. */
  predicate CellOk<S>(cells: seq<Cell<S>>, width: nat, i: nat, runeOk: int -> bool, styleOk: S -> bool,
                      widthOf: int -> nat)
    requires width > 0 && i < |cells|
  {
    var c := cells[i];
    var rowStart := (i / width) * width;
    runeOk(c.rune) && styleOk(c.style) &&
    (if c.continuation then
       c.rune == 0 && i != rowStart && i > 0 && !cells[i - 1].continuation && widthOf(cells[i - 1].rune) == 2
     else
       widthOf(c.rune) == 2 ==> i + 1 < rowStart + width && i + 1 < |cells| && cells[i + 1].continuation)
  }

  predicate RunValid<S>(cells: seq<Cell<S>>, width: nat, runeOk: int -> bool, styleOk: S -> bool, widthOf: int -> nat) {
    width > 0 && forall i :: 0 <= i < |cells| ==> CellOk(cells, width, i, runeOk, styleOk, widthOf)
  }

  /** Capping with a displayable fallback keeps a displayable run displayable. */
  lemma CappingKeepsRunValid<S>(cells: seq<Cell<S>>, fallback: S, width: nat,
                                runeOk: int -> bool, styleOk: S -> bool, widthOf: int -> nat)
    requires RunValid(cells, width, runeOk, styleOk, widthOf) && styleOk(fallback)
    ensures RunValid(Capped(cells, fallback), width, runeOk, styleOk, widthOf)
  {
    var capped := Capped(cells, fallback);
    assert forall j :: 0 <= j < |cells| ==>
      capped[j].rune == cells[j].rune && capped[j].continuation == cells[j].continuation
      && (capped[j].style == cells[j].style || capped[j].style == fallback);
    forall i | 0 <= i < |capped| ensures CellOk(capped, width, i, runeOk, styleOk, widthOf) {
      assert CellOk(cells, width, i, runeOk, styleOk, widthOf);
    }
  }

  // ----- The loops

  lemma StylesSnoc<S>(cells: seq<Cell<S>>, i: nat)
    requires i < |cells|
    ensures Styles(cells[..i + 1]) == Styles(cells[..i]) + {cells[i].style}
  {
    assert cells[..i + 1] == cells[..i] + [cells[i]];
  }

  lemma StylesOfPrefix<S>(cells: seq<Cell<S>>, i: nat)
    requires i <= |cells|
    ensures |Styles(cells[..i])| <= |Styles(cells)|
  {
    SubsetSize(Styles(cells[..i]), Styles(cells));
  }

  /** The style-count check, leaving the loop at the first style too many. */
  method StylesFit<S(==)>(cells: seq<Cell<S>>) returns (ok: bool)
    ensures ok <==> |Styles(cells)| <= MAX_STYLES
  {
    var styles: set<S> := {};
    for i := 0 to |cells|
      invariant styles == Styles(cells[..i]) && |styles| <= MAX_STYLES
    {
      StylesSnoc(cells, i);
      StylesOfPrefix(cells, i + 1);
      styles := styles + {cells[i].style};
      if |styles| > MAX_STYLES {
        return false;
      }
    }
    assert cells[..|cells|] == cells;
    return true;
  }

  method CapStyles<S(==)>(cells: array<Cell<S>>, fallback: S)
    modifies cells
    ensures cells[..] == Capped(old(cells[..]), fallback)
  {
    var fits := StylesFit(cells[..]);
    if fits {
      return;
    }
    ghost var was := cells[..];
    var styles := {fallback};
    for i := 0 to cells.Length
      invariant styles == Kept(was[..i], fallback)
      invariant forall j :: 0 <= j < i ==> cells[j] == Restyle(was[j], Kept(was, fallback), fallback)
      invariant forall j :: i <= j < cells.Length ==> cells[j] == was[j]
    {
      KeptSnoc(was, fallback, i);
      KeptWhenMet(was, fallback, i);
      var style := cells[i].style;
      if style in styles {
        assert styles + {style} == styles;
      } else if |styles| < MAX_STYLES {
        styles := styles + {style};
      } else {
        cells[i] := cells[i].(style := fallback);
      }
    }
    assert was[..cells.Length] == was;
  }
}
