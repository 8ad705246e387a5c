/** `_prepareLine`: one text line wrapped in the colour escape sequences of
    ECMA-48 section 8.3.117 (SGR, Select Graphic Rendition). */
module LineComposer {
  import opened Wrappers
  import opened Strings

  /** A stored line: its text and, optionally, the names of its foreground
      and background colours. */
  datatype Line = Line(text: string, color: Option<string>, background: Option<string>)

  /** The terminal's colour table: colour name to SGR parameter. */
  datatype Palette = Palette(fg: string -> string, bg: string -> string)

  const Esc: char := '\U{001B}'

  /** Control Sequence Introducer, ESC [. */
  const Csi: string := [Esc, '[']

  /** SGR 0: back to the default rendition. */
  const Reset: string := Csi + "0m"

  /** The SGR parameters of a line, foreground first. */
  function Codes(line: Line, pal: Palette): (codes: seq<string>)
    ensures |codes| == (if line.color.Some? then 1 else 0) + (if line.background.Some? then 1 else 0)
    ensures line.color.Some? ==> codes[0] == pal.fg(line.color.value)
    ensures line.background.Some? ==> codes[|codes| - 1] == pal.bg(line.background.value)
  {
    (if line.color.Some? then [pal.fg(line.color.value)] else [])
    + (if line.background.Some? then [pal.bg(line.background.value)] else [])
  }

  /** The bytes written for a line: the bare text when it has no colour,
      otherwise ESC [ params m, the text, and ESC [ 0 m. */
  function PrepareLine(line: Line, pal: Palette): (r: string)
    ensures line.color.None? && line.background.None? ==> r == line.text
    ensures line.color.Some? || line.background.Some? ==>
      |r| >= |Csi| + |Reset| && r[..|Csi|] == Csi && r[|r| - |Reset|..] == Reset
  {
    var codes := Codes(line, pal);
    if |codes| > 0 then Csi + Join(codes, ';') + "m" + line.text + Reset
    else line.text
  }

  /** Reads a wrapped line back: the SGR parameters and the text between the
      opening sequence and the reset. */
  function ParseWrapped(s: string): Option<(seq<string>, string)>
  {
    if |s| >= |Csi| + |Reset| && s[..|Csi|] == Csi && s[|s| - |Reset|..] == Reset then
      var body := s[|Csi|..|s| - |Reset|];
      match IndexOf(body, 'm')
      case Some(j) => Some((Split(body[..j], ';'), body[j + 1..]))
      case None => None
    else None
  }

  /** A coloured line reads back as its SGR parameters, foreground before
      background, and its unchanged text, provided the colour table's codes
      contain neither `;` nor `m` (they are digits). */
  lemma ParseWrappedPrepareLine(line: Line, pal: Palette)
    requires line.color.Some? || line.background.Some?
    requires forall i :: 0 <= i < |Codes(line, pal)| ==> ';' !in Codes(line, pal)[i] && 'm' !in Codes(line, pal)[i]
    ensures ParseWrapped(PrepareLine(line, pal)) == Some((Codes(line, pal), line.text))
  {
    var codes := Codes(line, pal);
    var params := Join(codes, ';');
    JoinAvoids(codes, ';', 'm');
    var s := PrepareLine(line, pal);
    var body := params + ['m'] + line.text;
    assert s == Csi + body + Reset;
    assert s[|Csi|..|s| - |Reset|] == body;
    IndexOfAfter(params, 'm', line.text);
    assert body[..|params|] == params;
    assert body[|params| + 1..] == line.text;
    SplitJoin(codes, ';');
  }
}
