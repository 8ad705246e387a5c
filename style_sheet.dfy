/** The element's style map: what `setStyle` does to it and what `getStyle`
    reads from it. */
module StyleSheet {
  import opened Wrappers
  import opened Strings

  type Style = map<string, string>

  /** One `;`-separated piece of a declaration string. It is honoured only
      when it splits into exactly two tokens on `:` (exactly one colon); its
      key and value are then the trimmed tokens. */
  function ParseDecl(piece: string): (d: Option<(string, string)>)
    ensures d.Some? <==> Count(piece, ':') == 1
  {
    var parts := Split(piece, ':');
    if |parts| == 2 then Some((Trim(parts[0]), Trim(parts[1]))) else None
  }

  /** A piece with one colon stores the trimmed text before the colon as the
      key and the trimmed text after it as the value. */
  lemma ParseDeclAt(p: string, t: string)
    requires ':' !in p && ':' !in t
    ensures ParseDecl(p + ":" + t) == Some((Trim(p), Trim(t)))
  {
    var piece := p + ":" + t;
    assert piece == p + [':'] + t;
    SplitAfterPiece(p, t, ':');
    SplitNoSep(t, ':');
    assert Split(piece, ':') == [p, t];
  }

  function ParseDecls(pieces: seq<string>): (ds: seq<Option<(string, string)>>)
    ensures |ds| == |pieces|
  {
    seq(|pieces|, i requires 0 <= i < |pieces| => ParseDecl(pieces[i]))
  }

  /** The honoured declarations stored one after the other over `m`. */
  function Store(m: Style, ds: seq<Option<(string, string)>>): Style
    decreases |ds|
  {
    if |ds| == 0 then m
    else
      var before := Store(m, ds[..|ds| - 1]);
      match ds[|ds| - 1]
      case Some(kv) => before[kv.0 := kv.1]
      case None => before
  }

  /** Storing never removes a key. */
  lemma {:induction false} StoreGrows(m: Style, ds: seq<Option<(string, string)>>)
    ensures m.Keys <= Store(m, ds).Keys
    decreases |ds|
  {
    if |ds| > 0 {
      StoreGrows(m, ds[..|ds| - 1]);
    }
  }

  /** Parsing one more piece stores its declaration, if honoured, on top. */
  lemma StoreNextDecl(m: Style, pieces: seq<string>, i: nat)
    requires i < |pieces|
    ensures Store(m, ParseDecls(pieces[..i + 1])) ==
      match ParseDecl(pieces[i])
      case Some(kv) => Store(m, ParseDecls(pieces[..i]))[kv.0 := kv.1]
      case None => Store(m, ParseDecls(pieces[..i]))
  {
    var ds := ParseDecls(pieces[..i + 1]);
    assert ds[..i] == ParseDecls(pieces[..i]);
    assert ds[i] == ParseDecl(pieces[i]);
  }

  /** The style map after `setStyle(s)` on an element whose map was `m`; no
      key is ever removed. */
  function Parse(m: Style, s: string): (r: Style)
    ensures m.Keys <= r.Keys
  {
    var ds := ParseDecls(Split(s, ';'));
    StoreGrows(m, ds);
    Store(m, ds)
  }

  /** Some honoured declaration of `ds` has key `k`. */
  predicate Names(ds: seq<Option<(string, string)>>, k: string)
  {
    exists i :: 0 <= i < |ds| && ds[i].Some? && ds[i].value.0 == k
  }

  lemma NamesSnoc(ds: seq<Option<(string, string)>>, k: string)
    requires |ds| > 0
    ensures Names(ds, k) <==>
      Names(ds[..|ds| - 1], k) || (ds[|ds| - 1].Some? && ds[|ds| - 1].value.0 == k)
  {
    var n := |ds| - 1;
    var prefix := ds[..n];
    if Names(prefix, k) {
      var i :| 0 <= i < n && prefix[i].Some? && prefix[i].value.0 == k;
      assert prefix[i] == ds[i];
    }
  }

  /** A key is present afterwards exactly when it was before or some honoured
      declaration names it. */
  lemma {:induction false} StoreKeys(m: Style, ds: seq<Option<(string, string)>>, k: string)
    ensures k in Store(m, ds) <==> k in m || Names(ds, k)
  {
    if |ds| > 0 {
      StoreKeys(m, ds[..|ds| - 1], k);
      NamesSnoc(ds, k);
    }
  }

  /** Keys that no honoured declaration names keep their previous value: new
      declarations are merged into the map, they never replace it. */
  lemma {:induction false} StoreKeepsOthers(m: Style, ds: seq<Option<(string, string)>>, k: string)
    requires !Names(ds, k)
    ensures k in Store(m, ds) <==> k in m
    ensures k in m ==> Store(m, ds)[k] == m[k]
  {
    if |ds| > 0 {
      NamesSnoc(ds, k);
      StoreKeepsOthers(m, ds[..|ds| - 1], k);
    }
  }

  /** The last honoured declaration of a key decides its value. */
  lemma {:induction false} StoreLastWins(m: Style, ds: seq<Option<(string, string)>>, i: nat)
    requires i < |ds| && ds[i].Some?
    requires !Names(ds[i + 1..], ds[i].value.0)
    ensures ds[i].value.0 in Store(m, ds)
    ensures Store(m, ds)[ds[i].value.0] == ds[i].value.1
    decreases |ds|
  {
    var n := |ds| - 1;
    if i < n {
      var k := ds[i].value.0;
      var rest := ds[i + 1..];
      assert ds[n] == rest[n - i - 1];
      assert ds[..n][i] == ds[i];
      StoreLastWins(m, ds[..n], i);
    }
  }

  lemma StoreSnoc(m: Style, ds: seq<Option<(string, string)>>, d: Option<(string, string)>)
    ensures Store(m, ds + [d]) == match d case Some(kv) => Store(m, ds)[kv.0 := kv.1] case None => Store(m, ds)
  {
    assert (ds + [d])[..|ds|] == ds;
  }

  /** A piece that is not honoured can be dropped without changing the result. */
  lemma {:induction false} StoreSkipsMalformed(m: Style, ds: seq<Option<(string, string)>>, j: nat)
    requires j < |ds| && ds[j].None?
    ensures Store(m, ds[..j] + ds[j + 1..]) == Store(m, ds)
  {
    var n := |ds| - 1;
    var dropped := ds[..j] + ds[j + 1..];
    if j == n {
      assert dropped == ds[..n];
    } else {
      var init := ds[..n][..j] + ds[..n][j + 1..];
      assert dropped == init + [ds[n]];
      StoreSkipsMalformed(m, ds[..n], j);
      StoreSnoc(m, init, ds[n]);
      StoreSnoc(m, ds[..n], ds[n]);
      assert ds == ds[..n] + [ds[n]];
    }
  }

  /** A token that can be written into a declaration and read back unchanged. */
  predicate Clean(t: string)
  {
    Trim(t) == t && ':' !in t && ';' !in t
  }

  function FormatDecl(kv: (string, string)): string
  {
    kv.0 + ": " + kv.1
  }

  function FormatDecls(kvs: seq<(string, string)>): (pieces: seq<string>)
    ensures |pieces| == |kvs|
    ensures forall i :: 0 <= i < |kvs| ==> pieces[i] == FormatDecl(kvs[i])
  {
    seq(|kvs|, i requires 0 <= i < |kvs| => FormatDecl(kvs[i]))
  }

  /** A declaration string `k1: v1;k2: v2;...`. */
  function Format(kvs: seq<(string, string)>): string
  {
    Join(FormatDecls(kvs), ';')
  }

  /** A clean pair written as `k: v` parses back to itself. */
  lemma ParseFormatDecl(kv: (string, string))
    requires Clean(kv.0) && Clean(kv.1)
    ensures ParseDecl(FormatDecl(kv)) == Some(kv)
  {
    assert FormatDecl(kv) == kv.0 + ":" + (" " + kv.1);
    ParseDeclAt(kv.0, " " + kv.1);
    TrimLeadingSpace(kv.1);
  }

  lemma FormatDeclsAvoid(kvs: seq<(string, string)>)
    requires forall i :: 0 <= i < |kvs| ==> Clean(kvs[i].0) && Clean(kvs[i].1)
    ensures forall i :: 0 <= i < |kvs| ==> ';' !in FormatDecls(kvs)[i]
  {
    forall i | 0 <= i < |kvs| ensures ';' !in FormatDecls(kvs)[i] {
      assert FormatDecls(kvs)[i] == kvs[i].0 + ": " + kvs[i].1;
    }
  }

  lemma ParseFormatDecls(kvs: seq<(string, string)>)
    requires forall i :: 0 <= i < |kvs| ==> Clean(kvs[i].0) && Clean(kvs[i].1)
    ensures ParseDecls(FormatDecls(kvs)) == seq(|kvs|, i requires 0 <= i < |kvs| => Some(kvs[i]))
  {
    var ds := ParseDecls(FormatDecls(kvs));
    forall i | 0 <= i < |kvs| ensures ds[i] == Some(kvs[i]) {
      ParseFormatDecl(kvs[i]);
    }
  }

  /** The declaration string parses into the pairs it was written from. */
  lemma ParseDeclsFormat(kvs: seq<(string, string)>)
    requires |kvs| > 0
    requires forall i :: 0 <= i < |kvs| ==> Clean(kvs[i].0) && Clean(kvs[i].1)
    ensures ParseDecls(Split(Format(kvs), ';')) == seq(|kvs|, i requires 0 <= i < |kvs| => Some(kvs[i]))
  {
    FormatDeclsAvoid(kvs);
    SplitJoin(FormatDecls(kvs), ';');
    ParseFormatDecls(kvs);
  }

  /** Writing clean pairs as a declaration string and setting it stores the
      pairs in order over the current map. */
  lemma ParseFormat(m: Style, kvs: seq<(string, string)>)
    requires forall i :: 0 <= i < |kvs| ==> Clean(kvs[i].0) && Clean(kvs[i].1)
    ensures Parse(m, Format(kvs)) == Store(m, seq(|kvs|, i requires 0 <= i < |kvs| => Some(kvs[i])))
  {
    if |kvs| == 0 {
      assert Format(kvs) == "";
      assert Split("", ';') == [""];
      assert ParseDecl("") == None;
      var ds := ParseDecls([""]);
      assert ds == [None];
      assert ds[..0] == [];
    } else {
      ParseDeclsFormat(kvs);
    }
  }

  lemma BlankHasNoColon(s: string)
    requires Blank(s)
    ensures ':' !in s
  {
  }

  /** However the key and the value are padded with white space, a piece
      with one colon stores the bare key and the bare value. */
  lemma ParsePaddedDecl(a: string, k: string, b: string, c: string, v: string, e: string)
    requires Blank(a) && Blank(b) && Blank(c) && Blank(e)
    requires Stripped(k) && Stripped(v) && ':' !in k && ':' !in v
    ensures ParseDecl((a + k + b) + ":" + (c + v + e)) == Some((k, v))
  {
    BlankHasNoColon(a);
    BlankHasNoColon(b);
    BlankHasNoColon(c);
    BlankHasNoColon(e);
    ParseDeclAt(a + k + b, c + v + e);
    TrimPadded(a, k, b);
    TrimPadded(c, v, e);
  }

  /** `;`-free pieces imploded on `;` are parsed piece by piece, in order. */
  lemma ParseJoin(m: Style, pieces: seq<string>)
    requires |pieces| > 0
    requires forall i :: 0 <= i < |pieces| ==> ';' !in pieces[i]
    ensures Parse(m, Join(pieces, ';')) == Store(m, ParseDecls(pieces))
  {
    SplitJoin(pieces, ';');
  }

  lemma SpacedDecl(k: string, v: string)
    requires Clean(k) && Clean(v)
    ensures ParseDecl(" " + k + ": " + v) == Some((k, v))
  {
    assert " " + k + ": " + v == (" " + k) + ":" + (" " + v);
    ParseDeclAt(" " + k, " " + v);
    TrimLeadingSpace(k);
    TrimLeadingSpace(v);
  }

  lemma ParseDeclsThree(x: string, y: string, z: string)
    ensures ParseDecls([x, y, z]) == [ParseDecl(x), ParseDecl(y), ParseDecl(z)]
  {
  }

  lemma UsualDecls(k1: string, v1: string, k2: string, v2: string)
    requires Clean(k1) && Clean(v1) && Clean(k2) && Clean(v2)
    ensures ParseDecls([k1 + ": " + v1, " " + k2 + ": " + v2, ""]) == [Some((k1, v1)), Some((k2, v2)), None]
  {
    ParseDeclsThree(k1 + ": " + v1, " " + k2 + ": " + v2, "");
    ParseFormatDecl((k1, v1));
    SpacedDecl(k2, v2);
    assert Count("", ':') == 0;
  }

  lemma JoinUsual(p: string, q: string)
    ensures Join([p, q, ""], ';') == p + ";" + q + ";"
  {
    assert [p, q, ""][1..] == [q, ""] && [q, ""][1..] == [""];
    assert Join([""], ';') == "";
    assert Join([q, ""], ';') == q + [';'] + "";
    assert Join([p, q, ""], ';') == p + [';'] + Join([q, ""], ';');
  }

  lemma UsualString(k1: string, v1: string, k2: string, v2: string)
    ensures (k1 + ": " + v1) + ";" + (" " + k2 + ": " + v2) + ";" == k1 + ": " + v1 + "; " + k2 + ": " + v2 + ";"
  {
  }

  lemma StoreTwo(m: Style, x: (string, string), y: (string, string))
    ensures Store(m, [Some(x), Some(y), None]) == m[x.0 := x.1][y.0 := y.1]
  {
    var ds := [Some(x), Some(y), None];
    assert ds[..2] == [Some(x), Some(y)];
    assert ds[..2][..1] == [Some(x)];
    assert ds[..2][..1][..0] == [];
    assert Store(m, ds[..2][..1]) == m[x.0 := x.1];
    assert Store(m, ds[..2]) == m[x.0 := x.1][y.0 := y.1];
    assert Store(m, ds) == Store(m, ds[..2]);
  }

  /** Two `;`-free pieces, each followed by `;`, are parsed one by one; the
      empty piece after the last `;` stores nothing. */
  lemma ParseTwoPieces(m: Style, p: string, q: string)
    requires ';' !in p && ';' !in q
    ensures Parse(m, p + ";" + q + ";") == Store(m, ParseDecls([p, q, ""]))
  {
    JoinUsual(p, q);
    ParseJoin(m, [p, q, ""]);
  }

  /** The usual way of calling setStyle, `k1: v1; k2: v2;`: a space after
      each colon and each `;`, and a trailing `;` whose empty last piece is
      ignored. Both pairs are stored, the second one last. */
  lemma SetStyleUsual(m: Style, k1: string, v1: string, k2: string, v2: string)
    requires Clean(k1) && Clean(v1) && Clean(k2) && Clean(v2)
    ensures Parse(m, k1 + ": " + v1 + "; " + k2 + ": " + v2 + ";") == m[k1 := v1][k2 := v2]
  {
    var p := k1 + ": " + v1;
    var q := " " + k2 + ": " + v2;
    UsualString(k1, v1, k2, v2);
    ParseTwoPieces(m, p, q);
    UsualDecls(k1, v1, k2, v2);
    StoreTwo(m, (k1, v1), (k2, v2));
  }

  /** What `getStyle` returns: null for a missing key, the value for a present
      one, and the whole map when called without a key (PHP also treats the
      keys "" and "0" as a missing argument). */
  datatype Lookup = Null | Value(v: string) | Whole(m: Style)

  predicate Truthy(s: string) { s != "" && s != "0" }

  function GetStyle(m: Style, key: Option<string>): (r: Lookup)
    ensures r.Whole? <==> key.None? || !Truthy(key.value)
    ensures r.Null? <==> key.Some? && Truthy(key.value) && key.value !in m
    ensures r.Value? ==> key.value in m && r.v == m[key.value]
    ensures r.Whole? ==> r.m == m
  {
    if key.Some? && Truthy(key.value) then
      (if key.value in m then Value(m[key.value]) else Null)
    else Whole(m)
  }

  /** setStyle("k: v") followed by getStyle("k") gives back v, whatever the
      map held before. */
  lemma SetThenGet(m: Style, k: string, v: string)
    requires Clean(k) && Clean(v) && Truthy(k)
    ensures GetStyle(Parse(m, k + ": " + v), Some(k)) == Value(v)
  {
    ParseFormat(m, [(k, v)]);
    assert Format([(k, v)]) == k + ": " + v;
  }
}
