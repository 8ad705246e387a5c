/** The element itself: its text lines, its style map, the dirty flag and
    the memoised viewport size, and the render cycle that turns them into
    cursor moves and writes on the terminal. */
module Elements {
  import opened Wrappers
  import opened Strings
  import opened StyleSheet
  import opened SizeContext
  import opened Position
  import opened LineComposer

  /** What the element asks of the terminal: an absolute cursor move, a move
      within the current row, or bytes written at the cursor. */
  datatype Event = SetPos(row: StartRow, col: int) | SetCol(col: int) | Write(s: string)

  /** A line as `setText` stores it: text only, no colours. */
  function Plain(text: string): Line
  {
    Line(text, None, None)
  }

  /** The lines stored for the given pieces, in order. */
  function Lines(pieces: seq<string>): (lines: seq<Line>)
    ensures |lines| == |pieces|
    ensures forall i :: 0 <= i < |pieces| ==> lines[i] == Plain(pieces[i])
    decreases |pieces|
  {
    if |pieces| == 0 then [] else Lines(pieces[..|pieces| - 1]) + [Plain(pieces[|pieces| - 1])]
  }

  function Texts(lines: seq<Line>): (texts: seq<string>)
    ensures |texts| == |lines|
    ensures forall i :: 0 <= i < |lines| ==> texts[i] == lines[i].text
  {
    seq(|lines|, i requires 0 <= i < |lines| => lines[i].text)
  }

  /** `getWidth`: the length in code points of the longest line, 0 when
      there are none. */
  function Width(lines: seq<Line>): (w: nat)
    ensures forall i :: 0 <= i < |lines| ==> |lines[i].text| <= w
    ensures lines == [] ==> w == 0
    ensures lines != [] ==> exists i :: 0 <= i < |lines| && |lines[i].text| == w
    decreases |lines|
  {
    if |lines| == 0 then 0
    else
      var before := Width(lines[..|lines| - 1]);
      var last := |lines[|lines| - 1].text|;
      assert forall i :: 0 <= i < |lines| - 1 ==> lines[..|lines| - 1][i] == lines[i];
      if before < last then last else before
  }

  /** The row after `r`: a fixed row moves down by one, a flowing element
      keeps flowing, and PHP's `null++` gives 1. */
  function NextRow(r: StartRow): StartRow
  {
    match r
    case Flow => Flow
    case Row(n) => Row(n + 1)
    case Unset => Row(1)
  }

  /** The row the render loop holds for line `i`. */
  function RowAt(start: StartRow, i: nat): (r: StartRow)
    ensures i == 0 ==> r == start
    ensures start == Flow <==> r == Flow
    ensures start.Row? ==> r == Row(start.n + i)
    ensures start == Unset && i > 0 ==> r == Row(i)
  {
    if i == 0 then start else NextRow(RowAt(start, i - 1))
  }

  /** The cursor event for a line: a move to (row, col) in a fixed element,
      a move to col on the current row in a flowing one. */
  function Cursor(row: StartRow, col: int): Event
  {
    if row == Flow then SetCol(col) else SetPos(row, col)
  }

  /** The write for a line: the prepared line, followed by a newline in a
      flowing element. */
  function Payload(out: string, row: StartRow): Event
  {
    if row == Flow then Write(out + "\n") else Write(out)
  }

  /** The bytes of each line as `_prepareLine` produces them. */
  function Prepared(lines: seq<Line>, pal: Palette): (outs: seq<string>)
    ensures |outs| == |lines|
    ensures forall i :: 0 <= i < |lines| ==> outs[i] == PrepareLine(lines[i], pal)
  {
    seq(|lines|, i requires 0 <= i < |lines| => PrepareLine(lines[i], pal))
  }

  /** The start column of each line of an element `width` cells wide. */
  function Columns(lines: seq<Line>, style: Style, cols: int, width: nat): (cs: seq<int>)
    requires lines != [] ==> HOffDefined(style)
    ensures |cs| == |lines|
    ensures forall i :: 0 <= i < |lines| ==> cs[i] == GetStartCol(style, cols, |lines[i].text|, width)
  {
    seq(|lines|, i requires 0 <= i < |lines| => GetStartCol(style, cols, |lines[i].text|, width))
  }

  /** The events for prepared lines `outs` placed at columns `cs`, the first
      one on row `start`. */
  function RenderLines(outs: seq<string>, cs: seq<int>, start: StartRow): seq<Event>
    requires |cs| == |outs|
    decreases |outs|
  {
    if |outs| == 0 then []
    else
      var n := |outs| - 1;
      RenderLines(outs[..n], cs[..n], start) + [Cursor(RowAt(start, n), cs[n]), Payload(outs[n], RowAt(start, n))]
  }

  /** What a render that goes ahead writes, for the element's lines, style and
      viewport size. */
  function RenderLog(lines: seq<Line>, style: Style, size: Size, pal: Palette): (log: seq<Event>)
    requires StartRowDefined(style) && (lines != [] ==> HOffDefined(style))
    ensures |log| == 2 * |lines|
    ensures Writes(log) == Suffixed(Prepared(lines, pal), if IsFixed(style) then "" else "\n")
  {
    var outs := Prepared(lines, pal);
    var cs := Columns(lines, style, size.cols, Width(lines));
    var start := GetStartRow(style, size);
    RenderLinesAt(outs, cs, start);
    RenderLinesWrites(outs, cs, start);
    RenderLines(outs, cs, start)
  }

  /** One more line appends its two events. */
  lemma RenderLinesSnoc(outs: seq<string>, cs: seq<int>, i: nat, start: StartRow)
    requires |cs| == |outs| && i < |outs|
    ensures RenderLines(outs[..i + 1], cs[..i + 1], start) ==
      RenderLines(outs[..i], cs[..i], start) + [Cursor(RowAt(start, i), cs[i]), Payload(outs[i], RowAt(start, i))]
  {
    assert outs[..i + 1][..i] == outs[..i];
    assert cs[..i + 1][..i] == cs[..i];
  }

  /** Line `i` owns events 2i and 2i+1: a cursor event and one write. */
  lemma {:induction false} RenderLinesAt(outs: seq<string>, cs: seq<int>, start: StartRow)
    requires |cs| == |outs|
    ensures |RenderLines(outs, cs, start)| == 2 * |outs|
    ensures forall i :: 0 <= i < |outs| ==>
      RenderLines(outs, cs, start)[2 * i] == Cursor(RowAt(start, i), cs[i]) &&
      RenderLines(outs, cs, start)[2 * i + 1] == Payload(outs[i], RowAt(start, i))
    decreases |outs|
  {
    if |outs| > 0 {
      var n := |outs| - 1;
      RenderLinesAt(outs[..n], cs[..n], start);
      var r := RenderLines(outs, cs, start);
      var before := RenderLines(outs[..n], cs[..n], start);
      assert r == before + [Cursor(RowAt(start, n), cs[n]), Payload(outs[n], RowAt(start, n))];
      forall i | 0 <= i < n
        ensures r[2 * i] == Cursor(RowAt(start, i), cs[i])
        ensures r[2 * i + 1] == Payload(outs[i], RowAt(start, i))
      {
        assert outs[..n][i] == outs[i] && cs[..n][i] == cs[i];
        assert r[2 * i] == before[2 * i];
        assert r[2 * i + 1] == before[2 * i + 1];
      }
    }
  }

  /** A render that goes ahead emits, for each line in order, one cursor
      event and one write: in a fixed element line i goes to row `RowAt(start, i)`,
      in a flowing one each line gets a column move and a trailing newline. */
  lemma RenderLogShape(lines: seq<Line>, style: Style, size: Size, pal: Palette)
    requires StartRowDefined(style) && (lines != [] ==> HOffDefined(style))
    ensures var log := RenderLog(lines, style, size, pal);
      |log| == 2 * |lines| &&
      forall i :: 0 <= i < |lines| ==>
        var col := GetStartCol(style, size.cols, |lines[i].text|, Width(lines));
        (IsFixed(style) ==>
          log[2 * i] == SetPos(RowAt(GetStartRow(style, size), i), col) &&
          log[2 * i + 1] == Write(PrepareLine(lines[i], pal))) &&
        (!IsFixed(style) ==>
          log[2 * i] == SetCol(col) &&
          log[2 * i + 1] == Write(PrepareLine(lines[i], pal) + "\n"))
  {
    RenderLinesAt(Prepared(lines, pal), Columns(lines, style, size.cols, Width(lines)), GetStartRow(style, size));
  }

  /** The payloads of the writes in a log, in order. */
  function Writes(log: seq<Event>): seq<string>
    decreases |log|
  {
    if |log| == 0 then []
    else Writes(log[..|log| - 1]) + (if log[|log| - 1].Write? then [log[|log| - 1].s] else [])
  }

  lemma {:induction false} WritesAppend(a: seq<Event>, b: seq<Event>)
    ensures Writes(a + b) == Writes(a) + Writes(b)
    decreases |b|
  {
    if |b| == 0 {
      assert a + b == a;
    } else {
      var n := |b| - 1;
      var last := if b[n].Write? then [b[n].s] else [];
      assert (a + b)[..|a + b| - 1] == a + b[..n];
      assert (a + b)[|a + b| - 1] == b[n];
      assert Writes(a + b) == Writes(a + b[..n]) + last;
      WritesAppend(a, b[..n]);
      assert Writes(b) == Writes(b[..n]) + last;
    }
  }

  lemma WritesPair(c: Event, w: Event)
    requires !c.Write? && w.Write?
    ensures Writes([c, w]) == [w.s]
  {
    assert [c, w][..1] == [c];
    assert [c][..0] == [];
    assert Writes([c]) == Writes([]) + [];
    assert Writes([c, w]) == Writes([c]) + [w.s];
  }

  /** Each string followed by `nl`. */
  function Suffixed(outs: seq<string>, nl: string): (ss: seq<string>)
    ensures |ss| == |outs|
    ensures forall i :: 0 <= i < |outs| ==> ss[i] == outs[i] + nl
    decreases |outs|
  {
    if |outs| == 0 then []
    else
      var n := |outs| - 1;
      assert forall i :: 0 <= i < n ==> outs[..n][i] == outs[i];
      Suffixed(outs[..n], nl) + [outs[n] + nl]
  }

  /** Exactly one write per line, in line order, nothing else written. */
  lemma {:induction false} RenderLinesWrites(outs: seq<string>, cs: seq<int>, start: StartRow)
    requires |cs| == |outs|
    ensures Writes(RenderLines(outs, cs, start)) == Suffixed(outs, if start == Flow then "\n" else "")
    decreases |outs|
  {
    if |outs| > 0 {
      var n := |outs| - 1;
      RenderLinesWrites(outs[..n], cs[..n], start);
      var c := Cursor(RowAt(start, n), cs[n]);
      var w := Payload(outs[n], RowAt(start, n));
      var before := RenderLines(outs[..n], cs[..n], start);
      assert RenderLines(outs, cs, start) == before + [c, w];
      WritesAppend(before, [c, w]);
      WritesPair(c, w);
      var nl := if start == Flow then "\n" else "";
      assert w.s == outs[n] + nl;
      assert Suffixed(outs, nl) == Suffixed(outs[..n], nl) + [outs[n] + nl];
    }
  }

  /** The written strings glued together. */
  function Concat(ss: seq<string>): string
    decreases |ss|
  {
    if |ss| == 0 then "" else Concat(ss[..|ss| - 1]) + ss[|ss| - 1]
  }

  lemma {:induction false} JoinSnoc(ps: seq<string>, x: string, sep: char)
    requires |ps| >= 1
    ensures Join(ps + [x], sep) == Join(ps, sep) + [sep] + x
    decreases |ps|
  {
    if |ps| > 1 {
      assert (ps + [x])[1..] == ps[1..] + [x];
      JoinSnoc(ps[1..], x, sep);
    }
  }

  /** Strings each followed by a newline glue into their implosion on
      newline plus one final newline. */
  lemma {:induction false} ConcatSuffixed(ts: seq<string>)
    requires |ts| >= 1
    ensures Concat(Suffixed(ts, "\n")) == Join(ts, '\n') + "\n"
    decreases |ts|
  {
    var n := |ts| - 1;
    var ss := Suffixed(ts, "\n");
    assert ss == Suffixed(ts[..n], "\n") + [ts[n] + "\n"];
    assert ss[..n] == Suffixed(ts[..n], "\n");
    assert Concat(ss) == Concat(ss[..n]) + ts[n] + "\n";
    if n > 0 {
      ConcatSuffixed(ts[..n]);
      JoinSnoc(ts[..n], ts[n], '\n');
      assert ts[..n] + [ts[n]] == ts;
    } else {
      assert Concat(ss[..n]) == "";
    }
  }

  /** In flow mode, what a render of `setText(s)` writes is `s` itself plus a
      final newline: no line is lost, duplicated, reordered or altered. */
  lemma FlowRenderWritesText(s: string, style: Style, size: Size, pal: Palette)
    requires StartRowDefined(style) && HOffDefined(style) && !IsFixed(style)
    ensures Concat(Writes(RenderLog(Lines(Split(s, '\n')), style, size, pal))) == s + "\n"
  {
    var ts := Split(s, '\n');
    PreparedPlain(ts, pal);
    assert Writes(RenderLog(Lines(ts), style, size, pal)) == Suffixed(ts, "\n");
    ConcatSuffixed(ts);
    JoinSplit(s, '\n');
  }

  /** Lines without colours are written as their bare text. */
  lemma PreparedPlain(ts: seq<string>, pal: Palette)
    ensures Prepared(Lines(ts), pal) == ts
  {
  }

  /** The fixed-position scenario `position: fixed; top: 0; text-align: right`
      with text "hi" in a 24 x 80 viewport: the element is 2 wide, starts on
      row 1, has offset 0, and right alignment is relative to its own width,
      so "hi" is written at column 0 (not 78). */
  lemma FixedTopRightExample(pal: Palette)
    ensures var style := map["position" := "fixed", "top" := "0", "text-align" := "right"];
      StartRowDefined(style) && HOffDefined(style) &&
      RenderLog([Plain("hi")], style, Size(24, 80), pal) == [SetPos(Row(1), 0), Write("hi")]
  {
    var style := map["position" := "fixed", "top" := "0", "text-align" := "right"];
    var lines := [Plain("hi")];
    assert Lengths.ParseLength("0") == Some(Lengths.Cells(0));
    assert GetStartRow(style, Size(24, 80)) == Row(1);
    assert lines[..0] == [];
    assert Width(lines) == 2;
    assert Columns(lines, style, 80, 2) == [0];
    assert Prepared(lines, pal) == ["hi"];
    var outs: seq<string> := ["hi"];
    var cs: seq<int> := [0];
    assert outs[..0] == [] && cs[..0] == [];
    assert RenderLines(outs, cs, Row(1)) == [SetPos(Row(1), 0), Write("hi")];
  }

  class Element {
    /** Caller-assigned identifier. */
    const id: string
    /** The stored lines, in order. */
    var text: seq<Line>
    /** The style map; `setStyle` merges into it. */
    var style: Style
    /** Set by `setText` and `setStyle`, cleared by a render. */
    var hasChanges: bool
    /** The parent's size, fetched once and kept. */
    var size: Option<Size>

    constructor (id: string)
      ensures this.id == id && text == [] && style == map[] && !hasChanges && size == None
    {
      this.id := id;
      text := [];
      style := map[];
      hasChanges := false;
      size := None;
    }

    /** `setText`: the text split on newlines, one line per piece. */
    method SetText(s: string)
      modifies this`text, this`hasChanges
      ensures hasChanges
      ensures text == Lines(Split(s, '\n'))
      ensures GetHeight() == Count(s, '\n') + 1
      ensures Join(Texts(text), '\n') == s
    {
      hasChanges := true;
      text := [];
      var rows := Split(s, '\n');
      for i := 0 to |rows|
        invariant hasChanges
        invariant text == Lines(rows[..i])
      {
        assert rows[..i + 1][..i] == rows[..i];
        text := text + [Plain(rows[i])];
      }
      assert rows[..|rows|] == rows;
      assert Texts(text) == rows;
      JoinSplit(s, '\n');
    }

    /** `setStyle`: every honoured declaration of `s` stored over the current
        map, keys it does not mention kept. */
    method SetStyle(s: string)
      modifies this`style, this`hasChanges
      ensures hasChanges
      ensures style == Parse(old(style), s)
    {
      hasChanges := true;
      var decls := Split(s, ';');
      for i := 0 to |decls|
        invariant hasChanges
        invariant style == Store(old(style), ParseDecls(decls[..i]))
      {
        var parts := Split(decls[i], ':');
        if |parts| == 2 {
          var key := Trim(parts[0]);
          var val := Trim(parts[1]);
          style := style[key := val];
        }
        StoreNextDecl(old(style), decls, i);
      }
      assert decls[..|decls|] == decls;
    }

    /** `getStyle`: the whole map without a key (or with one PHP treats as
        false), null for a key that is not set, its value otherwise. */
    function GetStyle(key: Option<string>): (r: Lookup)
      reads this
      ensures r.Whole? <==> key.None? || !Truthy(key.value)
      ensures r.Null? <==> key.Some? && Truthy(key.value) && key.value !in style
      ensures r.Value? ==> key.value in style && r.v == style[key.value]
      ensures r.Whole? ==> r.m == style
    {
      StyleSheet.GetStyle(style, key)
    }

    /** `getWidth`: a max-fold over the lines. */
    method GetWidth() returns (w: nat)
      ensures w == Width(text)
      ensures forall i :: 0 <= i < |text| ==> |text[i].text| <= w
      ensures text == [] ==> w == 0
      ensures text != [] ==> exists i :: 0 <= i < |text| && |text[i].text| == w
    {
      w := 0;
      for i := 0 to |text|
        invariant w == Width(text[..i])
      {
        assert text[..i + 1][..i] == text[..i];
        if w < |text[i].text| {
          w := |text[i].text|;
        }
      }
      assert text[..|text|] == text;
    }

    /** `getHeight`: the number of lines; for lines without a newline of
        their own, one more than the newlines of the text they display. */
    function GetHeight(): (h: nat)
      reads this
      ensures text != [] && (forall i :: 0 <= i < |text| ==> '\n' !in text[i].text) ==>
        h == Count(Join(Texts(text), '\n'), '\n') + 1
    {
      |text|
    }

    /** `getMaxWidth`. */
    function GetMaxWidth(parent: Container): (r: int)
      reads this
      requires MaxDefined(style, "max-width")
      ensures r <= parent.maxWidth
      ensures DeclaredMax(style, "max-width").Some? ==> r <= DeclaredMax(style, "max-width").value
      ensures r == parent.maxWidth || (DeclaredMax(style, "max-width").Some? && r == DeclaredMax(style, "max-width").value)
      ensures DeclaredMax(style, "max-width").None? ==> r == parent.maxWidth
    {
      EffectiveMax(style, "max-width", parent.maxWidth)
    }

    /** `getMaxHeight`. */
    function GetMaxHeight(parent: Container): (r: int)
      reads this
      requires MaxDefined(style, "max-height")
      ensures r <= parent.maxHeight
      ensures DeclaredMax(style, "max-height").Some? ==> r <= DeclaredMax(style, "max-height").value
      ensures r == parent.maxHeight || (DeclaredMax(style, "max-height").Some? && r == DeclaredMax(style, "max-height").value)
      ensures DeclaredMax(style, "max-height").None? ==> r == parent.maxHeight
    {
      EffectiveMax(style, "max-height", parent.maxHeight)
    }

    /** `getSize`: the parent's size, asked for once and then kept. */
    method GetSize(parent: Container) returns (s: Size)
      modifies this`size
      ensures old(size).Some? ==> s == old(size).value
      ensures old(size).None? ==> s == parent.size
      ensures size == Some(s)
    {
      if size.None? {
        size := Some(parent.size);
      }
      s := size.value;
    }

    /** The line loop of `render`: for each line in order, its column from
        `text-align`, then a cursor event and the prepared line; the row
        advances by one per line unless the element flows. */
    method EmitLines(sz: Size, width: nat, start: StartRow, pal: Palette) returns (log: seq<Event>)
      requires text != [] ==> HOffDefined(style)
      ensures log == RenderLines(Prepared(text, pal), Columns(text, style, sz.cols, width), start)
    {
      var row := start;
      ghost var cs := Columns(text, style, sz.cols, width);
      ghost var outs := Prepared(text, pal);
      log := [];
      for i := 0 to |text|
        invariant row == RowAt(start, i)
        invariant log == RenderLines(outs[..i], cs[..i], start)
      {
        assert text != [] && HOffDefined(style);
        var line := text[i];
        var len := |line.text|;
        var prepared := PrepareLine(line, pal);
        var col := GetStartCol(style, sz.cols, len, width);
        assert col == cs[i] && prepared == outs[i];
        RenderLinesSnoc(outs, cs, i, start);
        if row != Flow {
          log := log + [SetPos(row, col), Write(prepared)];
          row := NextRow(row);
        } else {
          log := log + [SetCol(col), Write(prepared + "\n")];
        }
      }
      assert outs[..|text|] == outs && cs[..|text|] == cs;
    }

    /** `render`: nothing unless forced or changed; otherwise the events of
        `RenderLog` for the current lines, style and memoised size, after
        which the element is clean. */
    method Render(force: bool, parent: Container, pal: Palette) returns (log: seq<Event>)
      requires force || hasChanges ==> StartRowDefined(style) && (text != [] ==> HOffDefined(style))
      modifies this`hasChanges, this`size
      ensures !force && !old(hasChanges) ==> log == [] && size == old(size)
      ensures force || old(hasChanges) ==>
        size.Some? && (old(size).Some? ==> size == old(size)) && (old(size).None? ==> size == Some(parent.size)) &&
        log == RenderLog(text, style, size.value, pal) && |log| == 2 * |text|
      ensures !hasChanges
    {
      if !force && !hasChanges {
        return [];
      }
      var sz := GetSize(parent);
      var width := GetWidth();
      var start := GetStartRow(style, sz);
      log := EmitLines(sz, width, start, pal);
      RenderLinesAt(Prepared(text, pal), Columns(text, style, sz.cols, width), start);
      hasChanges := false;
    }

    /** `applyFocus`: the cursor goes to the start row, just past the
        element's right edge: the offset plus the width, whatever the
        alignment. */
    method ApplyFocus(parent: Container) returns (ev: Event)
      requires StartRowDefined(style) && HOffDefined(style)
      modifies this`size
      ensures size.Some? && (old(size).Some? ==> size == old(size)) && (old(size).None? ==> size == Some(parent.size))
      ensures ev == SetPos(GetStartRow(style, size.value), GetHOff(style, size.value.cols, Width(text)) + Width(text))
    {
      var width := GetWidth();
      var sz := GetSize(parent);
      var row := GetStartRow(style, sz);
      var col := GetStartCol(style, sz.cols, width, width);
      FullWidthIsOffset(style, sz.cols, width);
      ev := SetPos(row, col + width);
    }
  }

  /** Two unforced renders with no change in between: the second one writes
      nothing, and a forced render always writes every line. */
  method RenderAgain(e: Element, parent: Container, pal: Palette) returns (second: seq<Event>, forced: seq<Event>)
    requires StartRowDefined(e.style) && (e.text != [] ==> HOffDefined(e.style))
    modifies e
    ensures second == []
    ensures |forced| == 2 * |e.text|
  {
    var first := e.Render(false, parent, pal);
    second := e.Render(false, parent, pal);
    forced := e.Render(true, parent, pal);
  }
}
