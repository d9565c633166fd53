/** `highlight_html_diff`: split both documents into lines, align their
    comparison keys, and render each aligned region from the ORIGINAL lines —
    unchanged lines verbatim from the new document, changed lines escaped and
    wrapped in a coloured marker. */
module Highlight {
  import opened Base
  import opened Readable
  import opened Lines
  import opened Opcodes

  // ---------------------------------------------------------------------------
  // Escaping: `line.replace("<", "&lt;").replace(">", "&gt;")`

  /** `s.replace(c, t)` for a one-character pattern. */
  function ReplaceChar(s: string, c: char, t: string): (r: string)
    ensures c !in s ==> r == s
    ensures c !in t ==> c !in r
    ensures forall d :: d != c && d !in t ==> (d in r <==> d in s)
  {
    if s == [] then []
    else (if s[0] == c then t else [s[0]]) + ReplaceChar(s[1..], c, t)
  }

  lemma {:induction false} ReplaceCharAppend(x: string, y: string, c: char, t: string)
    ensures ReplaceChar(x + y, c, t) == ReplaceChar(x, c, t) + ReplaceChar(y, c, t)
    decreases |x|
  {
    if x == [] {
      assert x + y == y;
    } else {
      assert (x + y)[1..] == x[1..] + y;
      ReplaceCharAppend(x[1..], y, c, t);
    }
  }

  /** The two chained replacements. The result holds no angle bracket, and it
      equals the line exactly when the line held none. */
  function Escape(line: string): (r: string)
    ensures '<' !in r && '>' !in r
    ensures r == line <==> ('<' !in line && '>' !in line)
  {
    ReplaceChar(ReplaceChar(line, '<', "&lt;"), '>', "&gt;")
  }

  /** Reference: each character escaped on its own. */
  function EscapeChar(c: char): string {
    if c == '<' then "&lt;" else if c == '>' then "&gt;" else [c]
  }

  function EscapeEach(s: string): string {
    if s == [] then [] else EscapeChar(s[0]) + EscapeEach(s[1..])
  }

  /** The two whole-string passes agree with the one-character-at-a-time view:
      the second pass never touches what the first one wrote. */
  lemma {:induction false} EscapeIsPerChar(s: string)
    ensures Escape(s) == EscapeEach(s)
    decreases |s|
  {
    if s != [] {
      var head := if s[0] == '<' then "&lt;" else [s[0]];
      var rest := ReplaceChar(s[1..], '<', "&lt;");
      assert ReplaceChar(s, '<', "&lt;") == head + rest;
      ReplaceCharAppend(head, rest, '>', "&gt;");
      assert ReplaceChar(head, '>', "&gt;") == EscapeChar(s[0]) by {
        if s[0] == '<' {
          assert ReplaceChar(head, '>', "&gt;") == "&lt;";
        }
      }
      EscapeIsPerChar(s[1..]);
    }
  }

  /** Escaping does not distinguish a raw `<` from a literal `&lt;`, because an
      ampersand is not escaped. */
  lemma EscapeNotInjective()
    ensures Escape("<") == Escape("&lt;") == "&lt;"
  {
    EscapeIsPerChar("<");
    EscapeIsPerChar("&lt;");
  }

  // ---------------------------------------------------------------------------
  // Rows: what each opcode region contributes, before it becomes text

  /** How a rendered line is presented. */
  datatype Mark = Kept | Inserted | Removed | Modified

  datatype Row = Row(mark: Mark, line: string)

  /** Every line of `lines`, under one mark. */
  function RegionRows(m: Mark, lines: seq<string>): (r: seq<Row>)
    ensures |r| == |lines|
    ensures forall k :: 0 <= k < |r| ==> r[k] == Row(m, lines[k])
  {
    if lines == [] then [] else [Row(m, lines[0])] + RegionRows(m, lines[1..])
  }

  predicate InRange(op: Opcode, m: nat, n: nat) {
    op.i1 <= op.i2 <= m && op.j1 <= op.j2 <= n
  }

  predicate AllInRange(ops: seq<Opcode>, m: nat, n: nat) {
    forall k :: 0 <= k < |ops| ==> InRange(ops[k], m, n)
  }

  /** One iteration of the rendering loop: `equal`, `insert` and `replace`
      read the new side `[j1, j2)`, `delete` reads the old side `[i1, i2)`. */
  function OpRows(op: Opcode, oldLines: seq<string>, newLines: seq<string>): seq<Row>
    requires InRange(op, |oldLines|, |newLines|)
  {
    match op.tag
    case Equal => RegionRows(Kept, newLines[op.j1..op.j2])
    case Insert => RegionRows(Inserted, newLines[op.j1..op.j2])
    case Delete => RegionRows(Removed, oldLines[op.i1..op.i2])
    case Replace => RegionRows(Modified, newLines[op.j1..op.j2])
  }

  function Rows(ops: seq<Opcode>, oldLines: seq<string>, newLines: seq<string>): seq<Row>
    requires AllInRange(ops, |oldLines|, |newLines|)
  {
    if ops == [] then [] else OpRows(ops[0], oldLines, newLines) + Rows(ops[1..], oldLines, newLines)
  }

  /** The lines of the rows that are not removals, in order. */
  function NewSide(rows: seq<Row>): seq<string> {
    if rows == [] then []
    else (if rows[0].mark == Removed then [] else [rows[0].line]) + NewSide(rows[1..])
  }

  /** The lines of the removal rows, in order. */
  function OldSide(rows: seq<Row>): seq<string> {
    if rows == [] then []
    else (if rows[0].mark == Removed then [rows[0].line] else []) + OldSide(rows[1..])
  }

  /** The old lines of the `delete` regions, in order. */
  function Deletions(ops: seq<Opcode>, oldLines: seq<string>): seq<string>
    requires forall k :: 0 <= k < |ops| ==> ops[k].i1 <= ops[k].i2 <= |oldLines|
  {
    if ops == [] then []
    else (if ops[0].tag == Delete then oldLines[ops[0].i1..ops[0].i2] else []) + Deletions(ops[1..], oldLines)
  }

  /** The lines of the rows rendered verbatim, in order. */
  function KeptSide(rows: seq<Row>): seq<string> {
    if rows == [] then []
    else (if rows[0].mark == Kept then [rows[0].line] else []) + KeptSide(rows[1..])
  }

  /** The new lines of the `equal` regions, in order. */
  function EqualLines(ops: seq<Opcode>, newLines: seq<string>): seq<string>
    requires forall k :: 0 <= k < |ops| ==> ops[k].j1 <= ops[k].j2 <= |newLines|
  {
    if ops == [] then []
    else (if ops[0].tag == Equal then newLines[ops[0].j1..ops[0].j2] else []) + EqualLines(ops[1..], newLines)
  }

  lemma {:induction false} NewSideAppend(x: seq<Row>, y: seq<Row>)
    ensures NewSide(x + y) == NewSide(x) + NewSide(y)
    decreases |x|
  {
    if x == [] {
      assert x + y == y;
    } else {
      assert (x + y)[1..] == x[1..] + y;
      NewSideAppend(x[1..], y);
    }
  }

  lemma {:induction false} OldSideAppend(x: seq<Row>, y: seq<Row>)
    ensures OldSide(x + y) == OldSide(x) + OldSide(y)
    decreases |x|
  {
    if x == [] {
      assert x + y == y;
    } else {
      assert (x + y)[1..] == x[1..] + y;
      OldSideAppend(x[1..], y);
    }
  }

  lemma {:induction false} KeptSideAppend(x: seq<Row>, y: seq<Row>)
    ensures KeptSide(x + y) == KeptSide(x) + KeptSide(y)
    decreases |x|
  {
    if x == [] {
      assert x + y == y;
    } else {
      assert (x + y)[1..] == x[1..] + y;
      KeptSideAppend(x[1..], y);
    }
  }

  lemma {:induction false} RegionSides(m: Mark, lines: seq<string>)
    ensures NewSide(RegionRows(m, lines)) == (if m == Removed then [] else lines)
    ensures OldSide(RegionRows(m, lines)) == (if m == Removed then lines else [])
    decreases |lines|
  {
    if lines != [] {
      RegionSides(m, lines[1..]);
      assert RegionRows(m, lines) == [Row(m, lines[0])] + RegionRows(m, lines[1..]);
      assert lines == [lines[0]] + lines[1..];
    }
  }

  lemma {:induction false} RegionKept(m: Mark, lines: seq<string>)
    ensures KeptSide(RegionRows(m, lines)) == (if m == Kept then lines else [])
    decreases |lines|
  {
    if lines != [] {
      RegionKept(m, lines[1..]);
      assert RegionRows(m, lines) == [Row(m, lines[0])] + RegionRows(m, lines[1..]);
      assert lines == [lines[0]] + lines[1..];
    }
  }

  /** Every row is either a removal or not. */
  lemma {:induction false} SidesCount(rows: seq<Row>)
    ensures |rows| == |NewSide(rows)| + |OldSide(rows)|
    decreases |rows|
  {
    if rows != [] {
      SidesCount(rows[1..]);
    }
  }

  /** `delete` regions take nothing from the new side. */
  predicate DeletesNoNew(ops: seq<Opcode>) {
    forall k :: 0 <= k < |ops| && ops[k].tag == Delete ==> ops[k].j1 == ops[k].j2
  }

  /** What one opcode contributes to each side. */
  lemma OpSides(op: Opcode, oldLines: seq<string>, newLines: seq<string>)
    requires InRange(op, |oldLines|, |newLines|)
    requires op.tag == Delete ==> op.j1 == op.j2
    ensures NewSide(OpRows(op, oldLines, newLines)) == newLines[op.j1..op.j2]
    ensures OldSide(OpRows(op, oldLines, newLines)) == if op.tag == Delete then oldLines[op.i1..op.i2] else []
  {
    match op.tag {
      case Equal => RegionSides(Kept, newLines[op.j1..op.j2]);
      case Insert => RegionSides(Inserted, newLines[op.j1..op.j2]);
      case Delete => RegionSides(Removed, oldLines[op.i1..op.i2]);
      case Replace => RegionSides(Modified, newLines[op.j1..op.j2]);
    }
  }

  /** Opcodes whose ranges fit the two line sequences, `delete` taking nothing
      from the new side. */
  predicate Renderable(ops: seq<Opcode>, m: nat, n: nat) {
    AllInRange(ops, m, n) && DeletesNoNew(ops)
  }

  lemma RenderableTail(ops: seq<Opcode>, m: nat, n: nat)
    requires ops != [] && Renderable(ops, m, n)
    ensures Renderable(ops[1..], m, n)
  {
    forall k | 0 <= k < |ops| - 1 ensures InRange(ops[1..][k], m, n) && (ops[1..][k].tag == Delete ==> ops[1..][k].j1 == ops[1..][k].j2) {
      assert ops[1..][k] == ops[k + 1];
    }
  }

  /** Rows of a non-empty opcode list: the first region, then the rest. */
  lemma RowsCons(ops: seq<Opcode>, oldLines: seq<string>, newLines: seq<string>)
    requires ops != [] && Renderable(ops, |oldLines|, |newLines|)
    ensures Renderable(ops[1..], |oldLines|, |newLines|)
    ensures Rows(ops, oldLines, newLines) == OpRows(ops[0], oldLines, newLines) + Rows(ops[1..], oldLines, newLines)
  {
    RenderableTail(ops, |oldLines|, |newLines|);
  }

  /** Read off the rendered rows in order, skipping the removals, and the new
      document's lines come back exactly. */
  lemma {:induction false} RowsNewSide(ops: seq<Opcode>, oldLines: seq<string>, newLines: seq<string>, i: nat, j: nat)
    requires Partition(ops, i, j, |oldLines|, |newLines|)
    requires Renderable(ops, |oldLines|, |newLines|)
    ensures j <= |newLines|
    ensures NewSide(Rows(ops, oldLines, newLines)) == newLines[j..]
    decreases |ops|
  {
    if ops != [] {
      var op := ops[0];
      assert op.j1 == j && Partition(ops[1..], op.i2, op.j2, |oldLines|, |newLines|);
      RenderableTail(ops, |oldLines|, |newLines|);
      RowsNewSide(ops[1..], oldLines, newLines, op.i2, op.j2);
      NewSideCons(ops, oldLines, newLines);
    }
  }

  /** The new side of the first region followed by the rest. */
  lemma NewSideCons(ops: seq<Opcode>, oldLines: seq<string>, newLines: seq<string>)
    requires ops != [] && Renderable(ops, |oldLines|, |newLines|)
    requires ops[0].j2 <= |newLines| && NewSide(Rows(ops[1..], oldLines, newLines)) == newLines[ops[0].j2..]
    ensures NewSide(Rows(ops, oldLines, newLines)) == newLines[ops[0].j1..]
  {
    var op := ops[0];
    assert InRange(op, |oldLines|, |newLines|) && (op.tag == Delete ==> op.j1 == op.j2);
    RowsCons(ops, oldLines, newLines);
    var here, rest := OpRows(op, oldLines, newLines), Rows(ops[1..], oldLines, newLines);
    assert NewSide(here + rest) == NewSide(here) + NewSide(rest) by {
      NewSideAppend(here, rest);
    }
    assert NewSide(here) == newLines[op.j1..op.j2] by {
      OpSides(op, oldLines, newLines);
    }
    SliceJoin(newLines, op.j1, op.j2);
  }

  /** The removal rows are exactly the `delete` regions' old lines, so no old
      line of a `replace` region is ever rendered. */
  lemma {:induction false} RowsOldSide(ops: seq<Opcode>, oldLines: seq<string>, newLines: seq<string>)
    requires Renderable(ops, |oldLines|, |newLines|)
    ensures OldSide(Rows(ops, oldLines, newLines)) == Deletions(ops, oldLines)
    decreases |ops|
  {
    if ops != [] {
      var op := ops[0];
      RowsCons(ops, oldLines, newLines);
      var here, rest := OpRows(op, oldLines, newLines), Rows(ops[1..], oldLines, newLines);
      RowsOldSide(ops[1..], oldLines, newLines);
      OldSideAppend(here, rest);
      OpSides(op, oldLines, newLines);
    }
  }

  /** The rows rendered verbatim are exactly the new lines of the `equal`
      regions. */
  lemma {:induction false} RowsKeptSide(ops: seq<Opcode>, oldLines: seq<string>, newLines: seq<string>)
    requires Renderable(ops, |oldLines|, |newLines|)
    ensures KeptSide(Rows(ops, oldLines, newLines)) == EqualLines(ops, newLines)
    decreases |ops|
  {
    if ops != [] {
      var op := ops[0];
      RowsCons(ops, oldLines, newLines);
      var here, rest := OpRows(op, oldLines, newLines), Rows(ops[1..], oldLines, newLines);
      RowsKeptSide(ops[1..], oldLines, newLines);
      KeptSideAppend(here, rest);
      match op.tag {
        case Equal => RegionKept(Kept, newLines[op.j1..op.j2]);
        case Insert => RegionKept(Inserted, newLines[op.j1..op.j2]);
        case Delete => RegionKept(Removed, oldLines[op.i1..op.i2]);
        case Replace => RegionKept(Modified, newLines[op.j1..op.j2]);
      }
    }
  }

  // ---------------------------------------------------------------------------
  // Text of one row

  /** Element name of the marker of a changed row. */
  function TagName(m: Mark): string {
    if m == Removed then "del" else "span"
  }

  /** Inline style of the marker: yellow for insertions, pink for removals,
      red for replacements. */
  function Style(m: Mark): string {
    match m
    case Kept => ""
    case Inserted => "background-color: yellow;"
    case Removed => "background-color: #fcc;"
    case Modified => "background-color: #faa;"
  }

  /** Everything between the angle brackets of the opening tag. */
  function Attrs(m: Mark): string {
    TagName(m) + " style=\"" + Style(m) + "\""
  }

  function Open(m: Mark): string {
    if m == Kept then "" else "<" + Attrs(m) + ">"
  }

  function Close(m: Mark): string {
    if m == Kept then "" else "</" + TagName(m) + ">"
  }

  /** The text appended to `result` for one row. */
  function Emit(row: Row): string {
    if row.mark == Kept then row.line else Open(row.mark) + Escape(row.line) + Close(row.mark)
  }

  /** The markers' inner text holds no angle bracket. */
  lemma StyleShape(m: Mark)
    ensures '<' !in Style(m) && '>' !in Style(m)
  {
  }

  lemma AttrsShape(m: Mark)
    requires m != Kept
    ensures '<' !in Attrs(m) && '>' !in Attrs(m)
    ensures '<' !in TagName(m) && '>' !in TagName(m)
    ensures |Attrs(m)| >= 2 && (Attrs(m)[0] != 's' || Attrs(m)[1] != 'c')
    ensures |Close(m)| < |"<script>"|
  {
    StyleShape(m);
    assert Attrs(m)[0] == TagName(m)[0] && Attrs(m)[1] == TagName(m)[1];
  }

  /** In a changed row the line's own text, between the opening and the
      closing tag, holds no angle bracket. */
  lemma EmitInert(row: Row)
    requires row.mark != Kept
    ensures Emit(row) == Open(row.mark) + Escape(row.line) + Close(row.mark)
    ensures forall k :: |Open(row.mark)| <= k < |Emit(row)| - |Close(row.mark)| ==> Emit(row)[k] != '<' && Emit(row)[k] != '>'
  {
    var o, e, c := Open(row.mark), Escape(row.line), Close(row.mark);
    var p := o + e + c;
    forall k | |o| <= k < |p| - |c| ensures p[k] != '<' && p[k] != '>' {
      assert p[k] == e[k - |o|];
    }
  }

  /** Within the opening tag, `<` stands only first. */
  lemma OpenAngles(m: Mark)
    requires m != Kept
    ensures forall k :: 0 < k < |Open(m)| ==> Open(m)[k] != '<'
  {
    var a, o := Attrs(m), Open(m);
    AttrsShape(m);
    forall k | 0 < k < |o| ensures o[k] != '<' {
      if k <= |a| {
        assert o[k] == a[k - 1];
      }
    }
  }

  /** Within the closing tag, `<` stands only first. */
  lemma CloseAngles(m: Mark)
    requires m != Kept
    ensures forall k :: 0 < k < |Close(m)| ==> Close(m)[k] != '<'
  {
    var t, c := TagName(m), Close(m);
    AttrsShape(m);
    forall k | 0 < k < |c| ensures c[k] != '<' {
      if 2 <= k < |c| - 1 {
        assert c[k] == t[k - 2];
      }
    }
  }

  /** The only `<` of a changed row open its two tags. */
  lemma EmitAngles(row: Row)
    requires row.mark != Kept
    ensures forall k :: 0 < k < |Emit(row)| && Emit(row)[k] == '<' ==> k == |Emit(row)| - |Close(row.mark)|
  {
    var o, c := Open(row.mark), Close(row.mark);
    var p := Emit(row);
    EmitInert(row);
    OpenAngles(row.mark);
    CloseAngles(row.mark);
    forall k | 0 < k < |p| && k != |p| - |c| ensures p[k] != '<' {
      if k < |o| {
        assert p[k] == o[k];
      } else if |p| - |c| < k {
        assert p[k] == c[k - (|p| - |c|)];
      }
    }
  }

  /** The opening tag starts with `<` and a tag name other than `sc…`, and the
      closing tag is shorter than `<script>`. */
  lemma MarkerStart(m: Mark)
    requires m != Kept
    ensures |Open(m)| >= 3 && (Open(m)[1] != 's' || Open(m)[2] != 'c')
    ensures |Close(m)| < |"<script>"|
  {
    var a, o := Attrs(m), Open(m);
    AttrsShape(m);
    assert o[1] == a[0] && o[2] == a[1];
  }

  /** A text whose only `<` after the first character sits in its last `c`
      characters, `c` too few to spell `<script>`, and which does not begin
      with `<sc`, does not contain `<script>`. */
  lemma NoScriptIn(p: string, c: nat)
    requires |p| >= 3 && (p[1] != 's' || p[2] != 'c')
    requires c < |"<script>"| && c <= |p|
    requires forall k :: 0 < k < |p| && p[k] == '<' ==> k == |p| - c
    ensures !Occurs("<script>", p)
  {
    forall k | 0 <= k <= |p| ensures !OccursAt("<script>", p, k) {
      if k + 8 <= |p| {
        var w := p[k..k + 8];
        if k == 0 {
          assert w[1] == p[1] && w[2] == p[2];
        } else {
          assert w[0] == p[k];
        }
      }
    }
  }

  /** A changed line containing `<script>` can never reproduce it literally. */
  lemma EmitNoScript(row: Row)
    requires row.mark != Kept
    ensures !Occurs("<script>", Emit(row))
  {
    var p, o := Emit(row), Open(row.mark);
    MarkerStart(row.mark);
    EmitAngles(row);
    assert p[1] == o[1] && p[2] == o[2];
    NoScriptIn(p, |Close(row.mark)|);
  }

  // ---------------------------------------------------------------------------
  // The whole artifact

  /** The fixed first line of every highlighted diff. */
  const MetaPrefix := "<meta charset='UTF-8'>\n"

  /** `extract_readable_text` over every line. */
  function Keys(lines: seq<string>): (r: seq<string>)
    ensures |r| == |lines|
    ensures forall k :: 0 <= k < |lines| ==> r[k] == Key(lines[k])
  {
    seq(|lines|, k requires 0 <= k < |lines| => Key(lines[k]))
  }

  /** The key of every line is canonical and equals the words of the
      tag-free line joined by single spaces. */
  lemma KeysAreJoinedWords(lines: seq<string>)
    ensures |Keys(lines)| == |lines|
    ensures forall k :: 0 <= k < |lines| ==>
      Keys(lines)[k] == JoinWords(Words(StripTags(lines[k]))) && Canonical(Keys(lines)[k])
  {
    forall k | 0 <= k < |lines|
      ensures Keys(lines)[k] == JoinWords(Words(StripTags(lines[k]))) && Canonical(Keys(lines)[k])
    {
      KeyIsJoinedWords(lines[k]);
    }
  }

  function EmitAll(rows: seq<Row>): (r: seq<string>)
    ensures |r| == |rows|
    ensures forall k :: 0 <= k < |rows| ==> r[k] == Emit(rows[k])
  {
    if rows == [] then [] else [Emit(rows[0])] + EmitAll(rows[1..])
  }

  /** The opcode ranges of a well-formed alignment index the original lines. */
  lemma WellFormedInRange(ops: seq<Opcode>, a: seq<string>, b: seq<string>)
    requires WellFormed(ops, a, b)
    ensures Renderable(ops, |a|, |b|)
  {
    PartitionBounds(ops, 0, 0, |a|, |b|);
    forall k | 0 <= k < |ops| && ops[k].tag == Delete ensures ops[k].j1 == ops[k].j2 {
      assert KindOk(ops[k], a, b);
    }
  }

  /** The rows rendered for two documents under an alignment of their keys. */
  function DiffRows(oldHtml: string, newHtml: string, ops: seq<Opcode>): seq<Row>
    requires WellFormed(ops, Keys(SplitLines(oldHtml)), Keys(SplitLines(newHtml)))
  {
    var oldLines, newLines := SplitLines(oldHtml), SplitLines(newHtml);
    WellFormedInRange(ops, Keys(oldLines), Keys(newLines));
    Rows(ops, oldLines, newLines)
  }

  /** `highlight_html_diff(old_html, new_html)` given the opcodes of the key
      sequences. */
  function HighlightDiff(oldHtml: string, newHtml: string, ops: seq<Opcode>): (r: string)
    requires WellFormed(ops, Keys(SplitLines(oldHtml)), Keys(SplitLines(newHtml)))
    ensures StartsWith(r, MetaPrefix)
  {
    var body := Concat(EmitAll(DiffRows(oldHtml, newHtml, ops)));
    assert (MetaPrefix + body)[..|MetaPrefix|] == MetaPrefix;
    MetaPrefix + body
  }

  /** One rendered piece per index: every line of the new document in order
      (through `equal`, `insert` and `replace`) plus every old line of a
      `delete` region, and nothing from the old side of a `replace`. */
  lemma DiffRowsContent(oldHtml: string, newHtml: string, ops: seq<Opcode>)
    requires WellFormed(ops, Keys(SplitLines(oldHtml)), Keys(SplitLines(newHtml)))
    ensures AllInRange(ops, |SplitLines(oldHtml)|, |SplitLines(newHtml)|)
    ensures NewSide(DiffRows(oldHtml, newHtml, ops)) == SplitLines(newHtml)
    ensures OldSide(DiffRows(oldHtml, newHtml, ops)) == Deletions(ops, SplitLines(oldHtml))
    ensures |EmitAll(DiffRows(oldHtml, newHtml, ops))| == |SplitLines(newHtml)| + |Deletions(ops, SplitLines(oldHtml))|
  {
    var oldLines, newLines := SplitLines(oldHtml), SplitLines(newHtml);
    WellFormedInRange(ops, Keys(oldLines), Keys(newLines));
    RowsNewSide(ops, oldLines, newLines, 0, 0);
    RowsOldSide(ops, oldLines, newLines);
    assert newLines[0..] == newLines;
    SidesCount(DiffRows(oldHtml, newHtml, ops));
  }

  /** Rows of an all-`equal` alignment are all kept. */
  lemma {:induction false} AllEqualRowsKept(ops: seq<Opcode>, oldLines: seq<string>, newLines: seq<string>)
    requires AllInRange(ops, |oldLines|, |newLines|)
    requires forall k :: 0 <= k < |ops| ==> ops[k].tag == Equal
    ensures forall k :: 0 <= k < |Rows(ops, oldLines, newLines)| ==> Rows(ops, oldLines, newLines)[k].mark == Kept
    decreases |ops|
  {
    if ops != [] {
      AllEqualRowsKept(ops[1..], oldLines, newLines);
      var x: seq<Row>, y: seq<Row> := OpRows(ops[0], oldLines, newLines), Rows(ops[1..], oldLines, newLines);
      forall k | 0 <= k < |x + y| ensures (x + y)[k].mark == Kept {
        if k >= |x| {
          assert (x + y)[k] == y[k - |x|];
        }
      }
    }
  }

  /** Kept rows render as their line, so they render as the new side. */
  lemma {:induction false} KeptRowsRender(rows: seq<Row>)
    requires forall k :: 0 <= k < |rows| ==> rows[k].mark == Kept
    ensures EmitAll(rows) == NewSide(rows)
    decreases |rows|
  {
    if rows != [] {
      KeptRowsRender(rows[1..]);
    }
  }

  /** When nothing differs at the key level the artifact is the prefix followed
      by the new document, byte for byte and unescaped. */
  lemma HighlightAllEqual(oldHtml: string, newHtml: string, ops: seq<Opcode>)
    requires WellFormed(ops, Keys(SplitLines(oldHtml)), Keys(SplitLines(newHtml)))
    requires forall k :: 0 <= k < |ops| ==> ops[k].tag == Equal
    ensures HighlightDiff(oldHtml, newHtml, ops) == MetaPrefix + newHtml
  {
    var oldLines, newLines := SplitLines(oldHtml), SplitLines(newHtml);
    var rows := DiffRows(oldHtml, newHtml, ops);
    DiffRowsContent(oldHtml, newHtml, ops);
    AllEqualRowsKept(ops, oldLines, newLines);
    KeptRowsRender(rows);
  }

  /** Every row of an `insert`, `delete` or `replace` region is marked, so it
      is escaped and wrapped and cannot carry `<script>` through. */
  lemma ChangedRegionInert(op: Opcode, oldLines: seq<string>, newLines: seq<string>)
    requires InRange(op, |oldLines|, |newLines|)
    requires op.tag != Equal
    ensures forall k :: 0 <= k < |OpRows(op, oldLines, newLines)| ==>
      OpRows(op, oldLines, newLines)[k].mark != Kept && !Occurs("<script>", Emit(OpRows(op, oldLines, newLines)[k]))
  {
    var rows := OpRows(op, oldLines, newLines);
    forall k | 0 <= k < |rows| ensures rows[k].mark != Kept && !Occurs("<script>", Emit(rows[k])) {
      EmitNoScript(rows[k]);
    }
  }

  /** Of the pieces of a highlighted diff, the ones copied unescaped are exactly
      the new lines of the `equal` regions, in order; every other piece is a
      wrapped, escaped line in which `<script>` cannot occur. */
  lemma DiffPiecesInert(oldHtml: string, newHtml: string, ops: seq<Opcode>)
    requires WellFormed(ops, Keys(SplitLines(oldHtml)), Keys(SplitLines(newHtml)))
    ensures Renderable(ops, |SplitLines(oldHtml)|, |SplitLines(newHtml)|)
    ensures KeptSide(DiffRows(oldHtml, newHtml, ops)) == EqualLines(ops, SplitLines(newHtml))
    ensures forall k :: 0 <= k < |DiffRows(oldHtml, newHtml, ops)| && DiffRows(oldHtml, newHtml, ops)[k].mark != Kept ==>
      !Occurs("<script>", EmitAll(DiffRows(oldHtml, newHtml, ops))[k])
  {
    var oldLines, newLines := SplitLines(oldHtml), SplitLines(newHtml);
    WellFormedInRange(ops, Keys(oldLines), Keys(newLines));
    RowsKeptSide(ops, oldLines, newLines);
    var rows := DiffRows(oldHtml, newHtml, ops);
    forall k | 0 <= k < |rows| && rows[k].mark != Kept ensures !Occurs("<script>", EmitAll(rows)[k]) {
      EmitNoScript(rows[k]);
    }
  }
}
