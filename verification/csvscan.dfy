/** The CSV scanner (csvdb/scan.go): the subset of section 2 of RFC 4180 the
    vendors write, split in place, and the decimal number parsers. */
module CsvScan {
  import opened Words

  const QUOTE: u8 := 0x22
  const COMMA: u8 := 0x2C

  // ---- rendering: what a line means ---------------------------------------------------

  function Doubled(f: bytes): bytes {
    if f == [] then [] else (if f[0] == QUOTE then [QUOTE, QUOTE] else [f[0]]) + Doubled(f[1..])
  }

  function RenderField(f: bytes, quoted: bool): bytes {
    if quoted then [QUOTE] + Doubled(f) + [QUOTE] else f
  }

  /** A field that needs no quotes. */
  predicate Bare(f: bytes) {
    QUOTE !in f && COMMA !in f
  }

  /** A row: each field with whether it is written in quotes. */
  type Row = seq<(bytes, bool)>

  predicate Renderable(row: Row) {
    row != [] && forall k :: 0 <= k < |row| ==> row[k].1 || Bare(row[k].0)
  }

  function Render(row: Row): bytes
    requires row != []
  {
    if |row| == 1 then RenderField(row[0].0, row[0].1)
    else RenderField(row[0].0, row[0].1) + [COMMA] + Render(row[1..])
  }

  function Texts(row: Row): (r: seq<bytes>)
    ensures |r| == |row|
  {
    seq(|row|, k requires 0 <= k < |row| => row[k].0)
  }

  // ---- reading ------------------------------------------------------------------------

  datatype SplitError = Unterminated | TextAfterQuote | QuoteInBare
  datatype Split = Fields(fields: seq<bytes>) | Rejected(error: SplitError)

  datatype QuotedText = NoEnd | Text(text: bytes, rest: bytes)

  /** The text after an opening quote, up to the quote that closes it. */
  function ReadQuoted(s: bytes): QuotedText {
    if s == [] then NoEnd
    else if s[0] != QUOTE then Prefix([s[0]], ReadQuoted(s[1..]))
    else if |s| > 1 && s[1] == QUOTE then Prefix([QUOTE], ReadQuoted(s[2..]))
    else Text([], s[1..])
  }

  function Prefix(p: bytes, t: QuotedText): QuotedText {
    if t.NoEnd? then NoEnd else Text(p + t.text, t.rest)
  }

  function Prepend(done: seq<bytes>, s: Split): Split {
    if s.Rejected? then s else Fields(done + s.fields)
  }

  /** The position of the first c, or the length of s. */
  function Find(s: bytes, c: u8): (n: nat)
    ensures n <= |s| && (n < |s| ==> s[n] == c) && c !in s[..n]
  {
    if s == [] || s[0] == c then 0 else
    assert s[..1 + Find(s[1..], c)] == [s[0]] + s[1..][..Find(s[1..], c)];
    1 + Find(s[1..], c)
  }

  lemma ReadQuotedShorter(s: bytes)
    ensures ReadQuoted(s).Text? ==> |ReadQuoted(s).rest| < |s|
  {
  }

  /** The first field of a line, with whether it is in quotes. */
  datatype First = Bad(error: SplitError) | Only(text: bytes, quoted: bool)
    | More(text: bytes, quoted: bool, rest: bytes)

  function ReadFirst(line: bytes): (r: First)
    ensures r.More? ==> |r.rest| < |line|
  {
    if line != [] && line[0] == QUOTE then
      var q := ReadQuoted(line[1..]);
      ReadQuotedShorter(line[1..]);
      if q.NoEnd? then Bad(Unterminated)
      else if q.rest == [] then Only(q.text, true)
      else if q.rest[0] != COMMA then Bad(TextAfterQuote)
      else More(q.text, true, q.rest[1..])
    else
      var n := Find(line, COMMA);
      if QUOTE in line[..n] then Bad(QuoteInBare)
      else if n == |line| then Only(line, false)
      else More(line[..n], false, line[n + 1..])
  }

  function ReadLine(line: bytes): Split
    decreases |line|
  {
    match ReadFirst(line)
    case Bad(e) => Rejected(e)
    case Only(t, _) => Fields([t])
    case More(t, _, rest) => Prepend([t], ReadLine(rest))
  }

  // ---- reading inverts rendering ----------------------------------------------------------

  lemma {:induction false} ReadDoubled(f: bytes, rest: bytes)
    requires rest == [] || rest[0] != QUOTE
    ensures ReadQuoted(Doubled(f) + [QUOTE] + rest) == Text(f, rest)
    decreases |f|
  {
    var s := Doubled(f) + [QUOTE] + rest;
    if f == [] {
      assert s == [QUOTE] + rest && s[1..] == rest;
    } else {
      var head := if f[0] == QUOTE then [QUOTE, QUOTE] else [f[0]];
      assert s == head + (Doubled(f[1..]) + [QUOTE] + rest);
      assert s[|head|..] == Doubled(f[1..]) + [QUOTE] + rest;
      ReadDoubled(f[1..], rest);
      assert [f[0]] + f[1..] == f;
    }
  }

  lemma FindFirst(s: bytes, n: nat, c: u8)
    requires n <= |s| && c !in s[..n] && (n < |s| ==> s[n] == c)
    ensures Find(s, c) == n
  {
  }

  /** The first field of a rendered row is read back. */
  lemma FirstRendered(f: bytes, q: bool, rest: bytes)
    requires (q || Bare(f)) && (rest == [] || rest[0] == COMMA)
    ensures ReadFirst(RenderField(f, q) + rest) == if rest == [] then Only(f, q) else More(f, q, rest[1..])
  {
    if q {
      FirstRenderedQuoted(f, rest);
    } else {
      FirstRenderedBare(f, rest);
    }
  }

  lemma FirstRenderedQuoted(f: bytes, rest: bytes)
    requires rest == [] || rest[0] == COMMA
    ensures ReadFirst(RenderField(f, true) + rest) == if rest == [] then Only(f, true) else More(f, true, rest[1..])
  {
    hide ReadQuoted, Find, Doubled;
    var line := RenderField(f, true) + rest;
    assert line[1..] == Doubled(f) + [QUOTE] + rest;
    ReadDoubled(f, rest);
  }

  lemma FirstRenderedBare(f: bytes, rest: bytes)
    requires Bare(f) && (rest == [] || rest[0] == COMMA)
    ensures ReadFirst(f + rest) == if rest == [] then Only(f, false) else More(f, false, rest[1..])
  {
    hide ReadQuoted, Find, Doubled;
    var line := f + rest;
    assert line[..|f|] == f && line[|f|..] == rest && (rest == [] ==> line == f);
    assert line != [] ==> line[0] != QUOTE by {
      assert f != [] ==> f[0] in f;
    }
    assert rest != [] ==> line[|f|] == COMMA && line[|f| + 1..] == rest[1..];
    FindFirst(line, |f|, COMMA);
  }

  /** Splitting a rendered row gives its fields, whatever is quoted. */
  lemma {:induction false} ReadRendered(row: Row)
    requires Renderable(row)
    ensures ReadLine(Render(row)) == Fields(Texts(row))
    decreases |row|
  {
    hide ReadFirst, RenderField;
    var (f, q) := row[0];
    if |row| > 1 {
      ReadRendered(row[1..]);
      assert Texts(row) == [f] + Texts(row[1..]);
      var rest := [COMMA] + Render(row[1..]);
      assert Render(row) == RenderField(f, q) + rest && rest[1..] == Render(row[1..]);
      FirstRendered(f, q, rest);
    } else {
      assert Texts(row) == [f];
      assert Render(row) == RenderField(f, q) + [];
      FirstRendered(f, q, []);
    }
  }

  // ---- rendering inverts reading ------------------------------------------------------------

  lemma {:induction false} QuotedIsDoubled(s: bytes)
    ensures ReadQuoted(s).Text? ==> var t := ReadQuoted(s); s == Doubled(t.text) + [QUOTE] + t.rest
    decreases |s|
  {
    if s != [] && ReadQuoted(s).Text? {
      var t := ReadQuoted(s);
      if s[0] != QUOTE {
        QuotedIsDoubled(s[1..]);
        assert t.text[1..] == ReadQuoted(s[1..]).text;
        assert s == [s[0]] + s[1..];
      } else if |s| > 1 && s[1] == QUOTE {
        QuotedIsDoubled(s[2..]);
        assert t.text[1..] == ReadQuoted(s[2..]).text;
        assert s == [QUOTE, QUOTE] + s[2..];
      } else {
        assert s == [QUOTE] + s[1..];
      }
    }
  }

  /** The first field is rendered at the start of the line. */
  lemma FirstIsRendered(line: bytes)
    ensures var r := ReadFirst(line);
      && (!r.Bad? ==> r.quoted || Bare(r.text))
      && (r.Only? ==> line == RenderField(r.text, r.quoted))
      && (r.More? ==> line == RenderField(r.text, r.quoted) + [COMMA] + r.rest)
  {
    if line != [] && line[0] == QUOTE {
      QuotedIsDoubled(line[1..]);
      FirstQuoted(line);
    } else {
      hide ReadQuoted, Doubled;
      var n := Find(line, COMMA);
      assert n == |line| ==> line[..n] == line;
      assert n < |line| ==> line == line[..n] + [COMMA] + line[n + 1..];
    }
  }

  lemma FirstQuoted(line: bytes)
    requires line != [] && line[0] == QUOTE
    requires ReadQuoted(line[1..]).Text? ==>
      line[1..] == Doubled(ReadQuoted(line[1..]).text) + [QUOTE] + ReadQuoted(line[1..]).rest
    ensures var r := ReadFirst(line);
      && (!r.Bad? ==> r.quoted)
      && (r.Only? ==> line == RenderField(r.text, r.quoted))
      && (r.More? ==> line == RenderField(r.text, r.quoted) + [COMMA] + r.rest)
  {
    hide ReadQuoted, Doubled, Find;
    var q := ReadQuoted(line[1..]);
    assert line == [QUOTE] + line[1..];
    if q.Text? && q.rest == [] {
      assert Doubled(q.text) + [QUOTE] + q.rest == Doubled(q.text) + [QUOTE];
    } else if q.Text? && q.rest[0] == COMMA {
      assert q.rest == [COMMA] + q.rest[1..];
    }
  }

  /** How an accepted line is written: which of its fields are in quotes. */
  ghost function Written(line: bytes): (row: Row)
    requires ReadLine(line).Fields?
    ensures row != []
    decreases |line|
  {
    match ReadFirst(line)
    case Only(t, q) => [(t, q)]
    case More(t, q, rest) => [(t, q)] + Written(rest)
  }

  lemma OneField(f: bytes, q: bool)
    requires q || Bare(f)
    ensures var row: Row := [(f, q)];
      Renderable(row) && Texts(row) == [f] && Render(row) == RenderField(f, q)
  {
  }

  lemma MoreFields(f: bytes, q: bool, tail: Row)
    requires (q || Bare(f)) && Renderable(tail)
    ensures var row: Row := [(f, q)] + tail;
      && Renderable(row) && Texts(row) == [f] + Texts(tail)
      && Render(row) == RenderField(f, q) + [COMMA] + Render(tail)
  {
    var row: Row := [(f, q)] + tail;
    assert row[1..] == tail;
  }

  /** A line is accepted exactly when it is the rendering of a row, and then it
      is the rendering of the fields it is split into. */
  lemma {:induction false} AcceptedIsRendered(line: bytes)
    requires ReadLine(line).Fields?
    ensures var row := Written(line);
      Renderable(row) && Texts(row) == ReadLine(line).fields && Render(row) == line
    decreases |line|
  {
    hide ReadFirst, Renderable, Texts, Render, RenderField, Bare;
    FirstIsRendered(line);
    match ReadFirst(line) {
      case Only(t, q) => OneField(t, q);
      case More(t, q, rest) =>
        AcceptedIsRendered(rest);
        MoreFields(t, q, Written(rest));
    }
  }

  lemma SplitExact(line: bytes)
    ensures ReadLine(line).Fields? <==> exists row: Row :: Renderable(row) && Render(row) == line
  {
    if ReadLine(line).Fields? {
      AcceptedIsRendered(line);
    }
    forall row: Row | Renderable(row) && Render(row) == line
      ensures ReadLine(line).Fields?
    {
      ReadRendered(row);
    }
  }

  // ---- the in-place splitter ------------------------------------------------------------------

  lemma {:induction false} QuotedChunk(s: bytes, j: nat)
    requires j <= |s| && QUOTE !in s[..j]
    ensures ReadQuoted(s) == Prefix(s[..j], ReadQuoted(s[j..]))
    decreases j
  {
    hide Prefix;
    if j > 0 {
      PrefixTwice([s[0]], s[1..][..j - 1], ReadQuoted(s[j..]));
      assert s[..j][0] == s[0] && s[1..][..j - 1] == s[..j][1..];
      QuotedChunk(s[1..], j - 1);
      assert s[1..][j - 1..] == s[j..];
      assert s[..j] == [s[0]] + s[1..][..j - 1];
    } else {
      PrefixNothing(ReadQuoted(s));
    }
  }

  lemma PrefixNothing(t: QuotedText)
    ensures Prefix([], t) == t
  {
    assert t.Text? ==> [] + t.text == t.text;
  }

  lemma PrefixTwice(p: bytes, q: bytes, t: QuotedText)
    ensures Prefix(p, Prefix(q, t)) == Prefix(p + q, t)
  {
    assert t.Text? ==> p + (q + t.text) == p + q + t.text;
  }

  /** copy(line[w:], line[i:i+j]), towards the front. */
  method CopyDown(line: array<u8>, w: nat, i: nat, j: nat)
    requires w <= i && i + j <= line.Length
    modifies line
    ensures line[w..w + j] == old(line[i..i + j])
    ensures forall k :: 0 <= k < line.Length && (k < w || w + j <= k) ==> line[k] == old(line[k])
  {
    ghost var before := line[..];
    for k := 0 to j
      invariant forall x :: w <= x < w + k ==> line[x] == before[x - w + i]
      invariant forall x :: 0 <= x < line.Length && (x < w || w + k <= x) ==> line[x] == before[x]
    {
      line[w + k] := line[i + k];
    }
  }

  /** The part of a quoted field read so far is in line[start..w]. */
  ghost predicate QuotedSoFar(o: bytes, a: bytes, start: nat, w: nat, i: nat) {
    && |a| == |o| && start <= w < i <= |o|
    && a[..start] == o[..start] && a[i..] == o[i..]
    && ReadQuoted(o[start + 1..]) == Prefix(a[start..w], ReadQuoted(o[i..]))
  }

  lemma ChunkCopied(o: bytes, a: bytes, b: bytes, start: nat, w: nat, i: nat, j: nat)
    requires QuotedSoFar(o, a, start, w, i) && i + j <= |o| && QUOTE !in o[i..i + j]
    requires |b| == |a| && b[w..w + j] == a[i..i + j]
    requires forall k :: 0 <= k < |a| && (k < w || w + j <= k) ==> b[k] == a[k]
    ensures b[..start] == o[..start] && b[i + j..] == o[i + j..]
    ensures ReadQuoted(o[start + 1..]) == Prefix(b[start..w + j], ReadQuoted(o[i + j..]))
  {
    hide ReadQuoted;
    var s := o[i..];
    assert s[..j] == o[i..i + j] && s[j..] == o[i + j..];
    QuotedChunk(s, j);
    assert a[i..i + j] == o[i..i + j] by {
      assert forall k :: i <= k < i + j ==> a[k] == a[i..][k - i] == o[i..][k - i] == o[k];
    }
    assert b[start..w + j] == a[start..w] + o[i..i + j];
    PrefixTwice(a[start..w], s[..j], ReadQuoted(s[j..]));
    assert forall k :: i + j <= k < |o| ==> b[k] == a[k] == a[i..][k - i] == o[i..][k - i];
  }

  /** The chunk up to quote q has been copied. */
  ghost predicate ChunkDone(o: bytes, b: bytes, start: nat, w: nat, q: nat) {
    && |b| == |o| && start <= w <= q < |o| && o[q] == QUOTE
    && b[..start] == o[..start] && b[q..] == o[q..]
    && ReadQuoted(o[start + 1..]) == Prefix(b[start..w], ReadQuoted(o[q..]))
  }

  lemma DoubledQuote(o: bytes, b: bytes, start: nat, w: nat, q: nat)
    requires ChunkDone(o, b, start, w, q) && q + 1 < |o| && b[q + 1] == QUOTE
    ensures QuotedSoFar(o, b[w := QUOTE], start, w + 1, q + 2)
  {
    hide ReadQuoted;
    assert b[q + 1] == b[q..][1] == o[q..][1] == o[q + 1];
    QuoteAt(o, q);
    var c := b[w := QUOTE];
    assert c[start..w + 1] == b[start..w] + [QUOTE];
    PrefixTwice(b[start..w], [QUOTE], ReadQuoted(o[q + 2..]));
    assert c[q + 2..] == b[q..][2..] == o[q + 2..];
    assert c[..start] == b[..start];
  }

  lemma ClosingQuote(o: bytes, b: bytes, start: nat, w: nat, q: nat)
    requires ChunkDone(o, b, start, w, q) && (q + 1 < |o| ==> b[q + 1] != QUOTE)
    ensures ReadQuoted(o[start + 1..]) == Text(b[start..w], o[q + 1..]) && b[q + 1..] == o[q + 1..]
  {
    hide ReadQuoted;
    assert q + 1 < |o| ==> b[q + 1] == b[q..][1] == o[q..][1] == o[q + 1];
    QuoteAt(o, q);
    assert b[start..w] + [] == b[start..w];
    assert b[q + 1..] == b[q..][1..] == o[q + 1..];
  }

  lemma ChunkEnds(o: bytes, a: bytes, b: bytes, start: nat, w: nat, i: nat, j: nat)
    requires QuotedSoFar(o, a, start, w, i) && j == Find(a[i..], QUOTE) < |a[i..]|
    requires |b| == |a| && b[w..w + j] == a[i..i + j]
    requires forall k :: 0 <= k < |a| && (k < w || w + j <= k) ==> b[k] == a[k]
    ensures ChunkDone(o, b, start, w + j, i + j)
  {
    hide ReadQuoted;
    assert a[i..] == o[i..];
    assert o[i..i + j] == o[i..][..j] && o[i + j] == o[i..][j];
    ChunkCopied(o, a, b, start, w, i, j);
  }

  lemma QuoteOpens(o: bytes, start: nat)
    requires start < |o|
    ensures QuotedSoFar(o, o, start, start, start + 1)
  {
    assert o[start..start] == [];
    PrefixNothing(ReadQuoted(o[start + 1..]));
  }

  lemma NeverEnds(o: bytes, a: bytes, start: nat, w: nat, i: nat)
    requires QuotedSoFar(o, a, start, w, i) && Find(a[i..], QUOTE) == |a[i..]|
    ensures ReadQuoted(o[start + 1..]) == NoEnd
  {
    NoQuoteNoEnd(o[i..]);
  }

  /** A quoted field: copied down over its quotes, "" becoming ". */
  method SplitQuoted(line: array<u8>, start: nat) returns (ok: bool, w: nat, i: nat)
    requires start < line.Length && line[start] == QUOTE
    modifies line
    ensures !ok ==> ReadQuoted(old(line[..])[start + 1..]) == NoEnd
    ensures ok ==> start <= w < i <= line.Length
    ensures ok ==> ReadQuoted(old(line[..])[start + 1..]) == Text(line[..][start..w], old(line[..])[i..])
    ensures ok ==> line[..][..start] == old(line[..])[..start] && line[..][i..] == old(line[..])[i..]
  {
    hide ReadQuoted, QuotedSoFar, ChunkDone, Find, Prefix;
    ghost var o := line[..];
    w, i := start, start + 1;
    QuoteOpens(o, start);
    while true
      invariant start <= w < i <= line.Length == |o|
      invariant QuotedSoFar(o, line[..], start, w, i)
      decreases line.Length - i
    {
      ghost var a := line[..];
      assert line[i..] == a[i..];
      var j := Find(line[i..], QUOTE);
      if j == line.Length - i {
        NeverEnds(o, a, start, w, i);
        return false, w, i;
      }
      CopyDown(line, w, i, j);
      ghost var b := line[..];
      assert b[w..w + j] == a[i..i + j];
      ChunkEnds(o, a, b, start, w, i, j);
      w, i := w + j, i + j + 1;
      if i < line.Length && line[i] == QUOTE {
        DoubledQuote(o, b, start, w, i - 1);
        line[w] := QUOTE;
        assert line[..] == b[w := QUOTE];
        w, i := w + 1, i + 1;
        continue;
      }
      ClosingQuote(o, b, start, w, i - 1);
      ChunkKeepsRow(o, b, start, w, i - 1);
      return true, w, i;
    }
  }

  lemma ChunkKeepsRow(o: bytes, b: bytes, start: nat, w: nat, q: nat)
    requires ChunkDone(o, b, start, w, q)
    ensures b[..start] == o[..start] && start <= w <= q < |o|
  {
  }

  lemma NoQuoteNoEnd(s: bytes)
    requires Find(s, QUOTE) == |s|
    ensures ReadQuoted(s) == NoEnd
  {
    assert s[..|s|] == s && s[|s|..] == [];
    QuotedChunk(s, |s|);
  }

  /** What a quote inside a quoted field means. */
  lemma QuoteAt(o: bytes, q: nat)
    requires q < |o| && o[q] == QUOTE
    ensures ReadQuoted(o[q..]) ==
      if q + 1 < |o| && o[q + 1] == QUOTE then Prefix([QUOTE], ReadQuoted(o[q + 2..]))
      else Text([], o[q + 1..])
  {
    var s := o[q..];
    assert s[1..] == o[q + 1..] && (|s| > 1 ==> s[1] == o[q + 1] && s[2..] == o[q + 2..]);
  }

  // ---- a whole line ----------------------------------------------------------------------------

  /** A field of the row: a slice of the line. */
  type Slice = (nat, nat)

  ghost predicate Within(row: seq<Slice>, end: nat) {
    forall k :: 0 <= k < |row| ==> row[k].0 <= row[k].1 <= end
  }

  function SlicesOf(a: bytes, row: seq<Slice>): (r: seq<bytes>)
    requires Within(row, |a|)
    ensures |r| == |row|
  {
    seq(|row|, k requires 0 <= k < |row| => a[row[k].0..row[k].1])
  }

  /** Fields already in the row do not change when later bytes do. */
  lemma SlicesKept(a: bytes, b: bytes, row: seq<Slice>, end: nat)
    requires Within(row, end) && end <= |a| == |b| && a[..end] == b[..end]
    ensures SlicesOf(a, row) == SlicesOf(b, row)
  {
    forall k | 0 <= k < |row|
      ensures SlicesOf(a, row)[k] == SlicesOf(b, row)[k]
    {
      assert a[row[k].0..row[k].1] == a[..end][row[k].0..row[k].1];
      assert b[row[k].0..row[k].1] == b[..end][row[k].0..row[k].1];
    }
  }

  /** The fields before position i are in the row. */
  ghost predicate LineSoFar(o: bytes, a: bytes, row: seq<Slice>, i: nat) {
    && |a| == |o| && i <= |o| && a[i..] == o[i..] && Within(row, i)
    && ReadLine(o) == Prepend(SlicesOf(a, row), ReadLine(o[i..]))
  }

  lemma LineStart(o: bytes)
    ensures LineSoFar(o, o, [], 0)
  {
    assert o[0..] == o;
    var r := ReadLine(o);
    assert r.Fields? ==> [] + r.fields == r.fields;
  }

  /** One more field, with a separator after it or the end of the line. */
  lemma NextField(o: bytes, a: bytes, b: bytes, row: seq<Slice>, i: nat, f: Slice, next: nat)
    requires LineSoFar(o, a, row, i) && |b| == |o| && i <= f.0 <= f.1 <= next <= |o|
    requires b[..i] == a[..i] && b[next..] == o[next..]
    requires !ReadFirst(o[i..]).Bad? && ReadFirst(o[i..]).text == b[f.0..f.1]
    requires ReadFirst(o[i..]).More? ==> ReadFirst(o[i..]).rest == o[next..]
    ensures var done := SlicesOf(b, row + [f]);
      && (ReadFirst(o[i..]).Only? ==> ReadLine(o) == Fields(done))
      && (ReadFirst(o[i..]).More? ==> LineSoFar(o, b, row + [f], next))
  {
    hide ReadFirst;
    SlicesKept(a, b, row, i);
    var done, text := SlicesOf(b, row), b[f.0..f.1];
    assert SlicesOf(b, row + [f]) == done + [text];
    if ReadFirst(o[i..]).More? {
      PrependTwice(done, text, ReadLine(o[next..]));
    }
  }

  lemma PrependTwice(done: seq<bytes>, t: bytes, s: Split)
    ensures Prepend(done, Prepend([t], s)) == Prepend(done + [t], s)
  {
    assert s.Fields? ==> done + ([t] + s.fields) == done + [t] + s.fields;
  }

  lemma BadField(o: bytes, a: bytes, row: seq<Slice>, i: nat)
    requires LineSoFar(o, a, row, i) && ReadFirst(o[i..]).Bad?
    ensures ReadLine(o) == Rejected(ReadFirst(o[i..]).error)
  {
  }

  /** What the byte after a closing quote means. */
  lemma AfterQuoted(o: bytes, i: nat, text: bytes, next: nat)
    requires i < |o| && o[i] == QUOTE && next <= |o| && ReadQuoted(o[i + 1..]) == Text(text, o[next..])
    ensures ReadFirst(o[i..]) ==
      if next == |o| then Only(text, true)
      else if o[next] != COMMA then Bad(TextAfterQuote)
      else More(text, true, o[next + 1..])
  {
    hide ReadQuoted, Find;
    assert o[i..][1..] == o[i + 1..];
    assert next < |o| ==> o[next..][0] == o[next] && o[next..][1..] == o[next + 1..];
  }

  lemma NoClosingQuote(o: bytes, i: nat)
    requires i < |o| && o[i] == QUOTE && ReadQuoted(o[i + 1..]) == NoEnd
    ensures ReadFirst(o[i..]) == Bad(Unterminated)
  {
    hide ReadQuoted, Find;
    assert o[i..][1..] == o[i + 1..];
  }

  /** split: the fields of the line, slices of it after unquoting in place. */
  method SplitLine(line: array<u8>) returns (row: seq<Slice>, err: bool, e: SplitError)
    modifies line
    ensures err ==> ReadLine(old(line[..])) == Rejected(e)
    ensures !err ==> Within(row, line.Length) && ReadLine(old(line[..])) == Fields(SlicesOf(line[..], row))
  {
    hide ReadQuoted, ReadFirst, Find, ReadLine, SlicesOf, Prepend;
    ghost var o := line[..];
    row, err, e := [], false, Unterminated;
    var i := 0;
    LineStart(o);
    while true
      invariant LineSoFar(o, line[..], row, i)
      decreases line.Length - i
    {
      ghost var a := line[..];
      SameByte(o, a, i);
      if i < line.Length && line[i] == QUOTE {
        var ok, w, next := SplitQuoted(line, i);
        ghost var b := line[..];
        ReadFromSuffix(o, a, i);
        if !ok {
          NoClosingQuote(o, i);
          BadField(o, a, row, i);
          return row, true, Unterminated;
        }
        SuffixAgain(o, a, b, i, next);
        AfterQuoted(o, i, b[i..w], next);
        if next == line.Length {
          NextField(o, a, b, row, i, (i, w), next);
          row := row + [(i, w)];
          return;
        }
        SameByte(o, b, next);
        if line[next] != COMMA {
          BadField(o, a, row, i);
          return row + [(i, w)], true, TextAfterQuote;
        }
        ReadFromSuffix(o, b, next);
        NextField(o, a, b, row, i, (i, w), next + 1);
        row := row + [(i, w)];
        i := next + 1;
        continue;
      }
      assert line[i..] == a[i..];
      var j := Find(line[i..], COMMA);
      assert line[i..i + j] == a[i..i + j];
      BareFirst(o, i, j);
      BareText(o, a, i, j);
      if QUOTE in line[i..i + j] {
        BadField(o, a, row, i);
        return row, true, QuoteInBare;
      }
      if j == line.Length - i {
        NextField(o, a, a, row, i, (i, i + j), i + j);
        row := row + [(i, i + j)];
        return;
      }
      NextField(o, a, a, row, i, (i, i + j), i + j + 1);
      row := row + [(i, i + j)];
      i := i + j + 1;
    }
  }

  lemma SameByte(o: bytes, a: bytes, i: nat)
    requires |a| == |o| && i <= |o| && a[i..] == o[i..]
    ensures i < |o| ==> a[i] == o[i]
  {
    assert i < |o| ==> a[i] == a[i..][0] && o[i] == o[i..][0];
  }

  lemma BareText(o: bytes, a: bytes, i: nat, j: nat)
    requires |a| == |o| && i + j <= |o| && a[i..] == o[i..]
    ensures a[i..i + j] == o[i..][..j] && (i + j < |o| ==> a[i + j + 1..] == o[i + j + 1..])
  {
    assert a[i..i + j] == a[i..][..j];
    if i + j < |o| {
      assert a[i + j + 1..] == a[i..][j + 1..] && o[i + j + 1..] == o[i..][j + 1..];
    }
  }

  lemma ReadFromSuffix(o: bytes, a: bytes, i: nat)
    requires |a| == |o| && i < |o| && a[i..] == o[i..]
    ensures a[i + 1..] == o[i + 1..]
  {
    assert a[i + 1..] == a[i..][1..];
    assert o[i + 1..] == o[i..][1..];
  }

  lemma SuffixAgain(o: bytes, a: bytes, b: bytes, i: nat, next: nat)
    requires |a| == |o| == |b| && i <= next <= |o| && a[i..] == o[i..] && b[next..] == a[next..]
    ensures a[next..] == o[next..] && b[next..] == o[next..]
  {
    assert a[next..] == a[i..][next - i..];
    assert o[next..] == o[i..][next - i..];
  }

  lemma BareFirst(o: bytes, i: nat, j: nat)
    requires i <= |o| && (i < |o| ==> o[i] != QUOTE) && j == Find(o[i..], COMMA)
    ensures var f := o[i..][..j];
      ReadFirst(o[i..]) ==
      if QUOTE in f then Bad(QuoteInBare)
      else if i + j == |o| then Only(f, false)
      else More(f, false, o[i + j + 1..])
  {
    hide ReadQuoted, Find;
    var s := o[i..];
    assert j == |s| ==> s[..j] == s;
    assert j < |s| ==> s[j + 1..] == o[i + j + 1..];
  }

  // ---- numbers ------------------------------------------------------------------------------------

  predicate Digit(c: u8) { 0x30 <= c <= 0x39 }

  predicate Digits(b: bytes) {
    forall k :: 0 <= k < |b| ==> Digit(b[k])
  }

  /** The value of a decimal numeral. */
  function Decimal(b: bytes): nat
    requires Digits(b)
  {
    if b == [] then 0 else Decimal(b[..|b| - 1]) * 10 + (b[|b| - 1] - 0x30)
  }

  lemma DecimalStep(b: bytes, i: nat)
    requires Digits(b) && i < |b|
    ensures Decimal(b[..i + 1]) == Decimal(b[..i]) * 10 + (b[i] - 0x30)
  {
    assert b[..i + 1][..i] == b[..i];
  }

  lemma {:induction false} DecimalGrows(b: bytes, i: nat)
    requires Digits(b) && i <= |b|
    ensures Decimal(b[..i]) <= Decimal(b)
    decreases |b| - i
  {
    if i < |b| {
      DecimalStep(b, i);
      DecimalGrows(b, i + 1);
    } else {
      assert b[..i] == b;
    }
  }

  /** bits.Mul64: the high and low words of a product. */
  function Mul64(x: u64, y: u64): (u64, u64)
    requires y == 10
  {
    (x * 10 / 0x1_0000_0000_0000_0000, x * 10 % 0x1_0000_0000_0000_0000)
  }

  /** bits.Add64: the sum and the carry out. */
  function Add64(x: u64, y: u64, c: nat): (u64, nat)
    requires c <= 1
  {
    ((x as int + y as int + c) % 0x1_0000_0000_0000_0000, (x as int + y as int + c) / 0x1_0000_0000_0000_0000)
  }

  /** parseUint128 accepts exactly the numerals of 1 to 39 digits below 2^128. */
  method ParseUint128(b: bytes) returns (hi: u64, lo: u64, ok: bool)
    ensures ok <==> 1 <= |b| <= 39 && Digits(b) && Decimal(b) < TWO128
    ensures ok ==> hi * TWO64 + lo == Decimal(b)
    ensures !ok ==> hi == 0 && lo == 0
  {
    if |b| == 0 || |b| > 39 {
      return 0, 0, false;
    }
    hi, lo := 0, 0;
    for i := 0 to |b|
      invariant Digits(b[..i]) && hi * TWO64 + lo == Decimal(b[..i])
    {
      var c := b[i];
      if !Digit(c) {
        return 0, 0, false;
      }
      assert Digits(b[..i + 1]);
      var h := Mul64(hi, 10);
      var l := Mul64(lo, 10);
      var s := Add64(l.1, c - 0x30, 0);
      var t := Add64(h.1, l.0, s.1);
      StepValue(hi, lo, c - 0x30);
      DecimalStep(b[..i + 1], i);
      assert b[..i + 1][..i] == b[..i] && b[..i + 1][..i + 1] == b[..i + 1];
      if h.0 != 0 || t.1 != 0 {
        if Digits(b) {
          DecimalGrows(b, i + 1);
        }
        return 0, 0, false;
      }
      hi, lo := t.0, s.0;
    }
    assert b[..|b|] == b;
    return hi, lo, true;
  }

  /** One step of the multiply-add, with its carries, is exact: it fails exactly
      when the value leaves 128 bits. */
  lemma StepValue(hi: u64, lo: u64, d: nat)
    requires d <= 9
    ensures var h, l := Mul64(hi, 10), Mul64(lo, 10);
      var s := Add64(l.1, d, 0);
      s.1 <= 1 && l.0 <= 9 &&
      var t := Add64(h.1, l.0, s.1);
      var v := (hi * TWO64 + lo) * 10 + d;
      v == h.0 * TWO128 + t.1 * TWO128 + t.0 * TWO64 + s.0
  {
  }

  /** parseUint32 accepts exactly the numerals of 1 to 10 digits below 2^32. */
  method ParseUint32(b: bytes) returns (v: u32, ok: bool)
    ensures ok <==> 1 <= |b| <= 10 && Digits(b) && Decimal(b) < TWO32
    ensures ok ==> v == Decimal(b)
  {
    if |b| == 0 || |b| > 10 {
      return 0, false;
    }
    var n: u64 := 0;
    for i := 0 to |b|
      invariant Digits(b[..i]) && n == Decimal(b[..i])
    {
      var c := b[i];
      if !Digit(c) {
        return 0, false;
      }
      assert Digits(b[..i + 1]) && b[..i + 1][..i] == b[..i];
      DecimalBelow(b[..i]);
      TenGrows(i, 9);
      assert Ten(9) == 1_000_000_000 by {
        assert Ten(3) == 1000 && Ten(6) == 1_000_000;
      }
      DecimalStep(b[..i + 1], i);
      assert b[..i + 1][..i + 1] == b[..i + 1];
      n := n * 10 + (c - 0x30);
    }
    assert b[..|b|] == b;
    return n % TWO32, n < TWO32;
  }

  lemma {:induction false} DecimalBelow(b: bytes)
    requires Digits(b)
    ensures Decimal(b) < Ten(|b|)
  {
    if b != [] {
      DecimalBelow(b[..|b| - 1]);
    }
  }

  function Ten(k: nat): nat {
    if k == 0 then 1 else 10 * Ten(k - 1)
  }

  lemma {:induction false} TenGrows(j: nat, k: nat)
    requires j <= k
    ensures Ten(j) <= Ten(k)
  {
    if j < k {
      TenGrows(j, k - 1);
    }
  }

  /** The decimal numeral of n. */
  function Numeral(n: nat): (b: bytes)
    ensures b != []
  {
    if n < 10 then [48 + n] else Numeral(n / 10) + [48 + n % 10]
  }

  /** Every number below 2^128 is read from its numeral. */
  lemma {:induction false} NumeralRead(n: nat)
    ensures Digits(Numeral(n)) && Decimal(Numeral(n)) == n
    ensures forall k: nat :: k >= 1 && n < Ten(k) ==> |Numeral(n)| <= k
  {
    if n >= 10 {
      var b := Numeral(n);
      NumeralRead(n / 10);
      assert b[..|b| - 1] == Numeral(n / 10);
      forall k: nat | k >= 1 && n < Ten(k)
        ensures |b| <= k
      {
        assert k >= 2 by { assert Ten(1) == 10; }
        assert n / 10 < Ten(k - 1);
      }
    } else {
      assert Decimal([]) == 0 && [48 + n][..0] == [];
    }
  }

  lemma NumeralFits(n: u128)
    ensures var b := Numeral(n); 1 <= |b| <= 39 && Digits(b) && Decimal(b) == n
    ensures n < TWO32 ==> |Numeral(n)| <= 10
  {
    NumeralRead(n);
    assert Ten(5) == 100_000 && Ten(10) == 10_000_000_000;
    TenAdd(10, 10);
    TenAdd(20, 10);
    TenAdd(30, 9);
    assert Ten(9) == 1_000_000_000;
  }

  lemma {:induction false} TenAdd(a: nat, b: nat)
    ensures Ten(a + b) == Ten(a) * Ten(b)
  {
    if a > 0 {
      TenAdd(a - 1, b);
      assert Ten(a + b) == 10 * Ten(a - 1 + b);
    }
  }

  /** The bytes of section 2 of RFC 4180: fields are separated by a comma, and a
      quote inside quotes is written twice. */
  lemma RenderBytes(f: bytes, g: bytes)
    ensures Render([(f, false), (g, true)]) == f + [44, 34] + Doubled(g) + [34]
    ensures Doubled([34] + g) == [34, 34] + Doubled(g)
    ensures forall c: u8 :: c != 34 ==> Doubled([c] + g) == [c] + Doubled(g)
  {
    assert ([34] + g)[1..] == g;
    forall c: u8 | c != 34
      ensures Doubled([c] + g) == [c] + Doubled(g)
    {
      assert ([c] + g)[1..] == g;
    }
    var row := [(f, false), (g, true)];
    assert row[1..] == [(g, true)];
    assert f + [COMMA] + ([QUOTE] + Doubled(g) + [QUOTE]) == f + [44, 34] + Doubled(g) + [34];
  }
}
