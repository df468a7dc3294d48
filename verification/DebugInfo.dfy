/** Debug-information injection: a transformer over the lines of the generated assembly that follows
    its markers, and the escaping of the strings it splices in. */
module DebugInfo {
  import opened Wrappers

  // ---- markers ----

  function Find(s: string, tag: string): (r: Option<nat>)
    ensures r.Some? ==> r.value + |tag| <= |s|
  {
    if |s| < |tag| then None
    else if s[..|tag|] == tag then Some(0)
    else if s == "" then None
    else match Find(s[1..], tag) case Some(i) => Some(i + 1) case None => None
  }

  predicate Contains(s: string, tag: string) {
    Find(s, tag).Some?
  }

  /** What follows the first occurrence of a tag, up to its next one. */
  function AfterTag(s: string, tag: string): Option<string> {
    match Find(s, tag)
    case None => None
    case Some(i) =>
      var rest := s[i + |tag|..];
      (match Find(rest, tag) case Some(j) => Some(rest[..j]) case None => Some(rest))
  }

  /** The characters with the White_Space property of Unicode. */
  predicate IsSpace(c: char) {
    var n := c as int;
    n == 0x20 || 0x09 <= n <= 0x0D || n == 0x85 || n == 0xA0 || n == 0x1680 || 0x2000 <= n <= 0x200A
    || n == 0x2028 || n == 0x2029 || n == 0x202F || n == 0x205F || n == 0x3000
  }

  /** The whitespace-separated words of a text; `current` is the word being read. */
  function Words(s: string, current: string): seq<string>
    decreases |s|
  {
    if s == "" then if current == "" then [] else [current]
    else if IsSpace(s[0]) then (if current == "" then [] else [current]) + Words(s[1..], "")
    else Words(s[1..], current + [s[0]])
  }

  /** The value of the first `key=value` word. */
  function ValueIn(words: seq<string>, key: string): Option<string> {
    if words == [] then None
    else if |words[0]| > |key| && words[0][..|key|] == key && words[0][|key|] == '=' then Some(words[0][|key| + 1..])
    else ValueIn(words[1..], key)
  }

  function MarkerValue(marker: string, key: string): Option<string> {
    ValueIn(Words(marker, ""), key)
  }

  const MAX_USIZE: nat := 0xFFFF_FFFF_FFFF_FFFF

  function Digits(s: string, value: nat): Option<nat> {
    if s == "" then Some(value)
    else if '0' <= s[0] <= '9' then
      var more := 10 * value + (s[0] as int - '0' as int);
      if more > MAX_USIZE then None else Digits(s[1..], more)
    else None
  }

  /** An unsigned number: digits, with an optional plus sign, that fit the word size. */
  function ParseNumber(s: string): Option<nat> {
    var digits := if s != "" && s[0] == '+' then s[1..] else s;
    if digits == "" then None else Digits(digits, 0)
  }

  function MarkerNumber(marker: string, key: string): Option<nat> {
    match MarkerValue(marker, key) case Some(v) => ParseNumber(v) case None => None
  }

  predicate IsSymbolChar(c: char) {
    'a' <= c <= 'z' || 'A' <= c <= 'Z' || '0' <= c <= '9' || c == '_' || c == '$' || c == '.'
  }

  predicate IsPlainSymbol(s: string) {
    s != "" && forall i | 0 <= i < |s| :: IsSymbolChar(s[i])
  }

  datatype Region = Region(name: string, symbol: string)

  /** What one line of assembly means to the injector. */
  datatype Marker = SourceAt(line: nat, col: nat) | Opens(region: Region) | Closes | Silent

  function PositionOf(marker: string): Marker {
    match MarkerNumber(marker, "line")
    case None => Silent
    case Some(l) => match MarkerNumber(marker, "col") case Some(c) => SourceAt(l, c) case None => Silent
  }

  function OpeningOf(marker: string): Marker {
    if Contains(marker, "synthetic=1") then Silent
    else
      match MarkerValue(marker, "name")
      case None => Silent
      case Some(name) =>
        match MarkerValue(marker, "symbol")
        case Some(symbol) => if IsPlainSymbol(symbol) then Opens(Region(name, symbol)) else Silent
        case None => Silent
  }

  function Meaning(line: string): Marker {
    match AfterTag(line, "@src ")
    case Some(marker) => PositionOf(marker)
    case None =>
      match AfterTag(line, "@fn ")
      case Some(marker) => OpeningOf(marker)
      case None => if Contains(line, "@endfn") then Closes else Silent
  }

  // ---- the transformer ----

  /** A line of assembly with its meaning. */
  datatype Line = Line(text: string, marker: Marker)

  function Read(lines: seq<string>): seq<Line> {
    seq(|lines|, i requires 0 <= i < |lines| => Line(lines[i], Meaning(lines[i])))
  }

  datatype OutLine = Original(text: string) | Loc(line: nat, col: nat) | EndLabel(index: nat)

  datatype Subprogram = Subprogram(region: Region, endLabel: nat)

  datatype State = State(out: seq<OutLine>, open: Option<Region>, subprograms: seq<Subprogram>)

  function Step(s: State, line: Line): State {
    var out := s.out + [Original(line.text)];
    match line.marker
    case SourceAt(l, c) => State(out + [Loc(l, c)], s.open, s.subprograms)
    case Opens(region) => State(out, Some(region), s.subprograms)
    case Closes =>
      (match s.open
       case Some(region) =>
         var index := |s.subprograms|;
         State(out + [EndLabel(index)], None, s.subprograms + [Subprogram(region, index)])
       case None => State(out, None, s.subprograms))
    case Silent => State(out, s.open, s.subprograms)
  }

  /** The injector's state after the first `n` lines. */
  function After(ls: seq<Line>, n: nat): State
    requires n <= |ls|
  {
    if n == 0 then State([], None, []) else Step(After(ls, n - 1), ls[n - 1])
  }

  /** One line: it is copied, and its marker decides what is injected behind it. */
  method InjectLine(line: string, state: State) returns (r: State)
    ensures r == Step(state, Line(line, Meaning(line)))
  {
    var out := state.out + [Original(line)];
    var source := AfterTag(line, "@src ");
    if source.Some? {
      var position := PositionOf(source.value);
      if position.SourceAt? {
        out := out + [Loc(position.line, position.col)];
      }
      return State(out, state.open, state.subprograms);
    }
    var marker := AfterTag(line, "@fn ");
    if marker.Some? {
      var opening := OpeningOf(marker.value);
      return State(out, if opening.Opens? then Some(opening.region) else state.open, state.subprograms);
    }
    if Contains(line, "@endfn") && state.open.Some? {
      var endLabel := |state.subprograms|;
      return State(out + [EndLabel(endLabel)], None, state.subprograms + [Subprogram(state.open.value, endLabel)]);
    }
    return State(out, state.open, state.subprograms);
  }

  method InjectLineDirectives(lines: seq<string>) returns (out: seq<OutLine>, subprograms: seq<Subprogram>)
    ensures out == After(Read(lines), |lines|).out && subprograms == After(Read(lines), |lines|).subprograms
  {
    ghost var ls := Read(lines);
    var state := State([], None, []);
    var i := 0;
    while i < |lines|
      invariant 0 <= i <= |lines|
      invariant state == After(ls, i)
    {
      state := InjectLine(lines[i], state);
      i := i + 1;
    }
    return state.out, state.subprograms;
  }

  // ---- the original lines survive ----

  function Originals(out: seq<OutLine>): seq<string> {
    if out == [] then []
    else
      var k := |out| - 1;
      Originals(out[..k]) + if out[k].Original? then [out[k].text] else []
  }

  lemma OriginalsAppend(out: seq<OutLine>, x: OutLine)
    ensures Originals(out + [x]) == Originals(out) + if x.Original? then [x.text] else []
  {
    assert (out + [x])[..|out|] == out;
  }

  lemma StepKeepsOriginals(s: State, line: Line)
    ensures Originals(Step(s, line).out) == Originals(s.out) + [line.text]
  {
    var out := s.out + [Original(line.text)];
    OriginalsAppend(s.out, Original(line.text));
    match line.marker
    case SourceAt(l, c) => OriginalsAppend(out, Loc(l, c));
    case Closes => OriginalsAppend(out, EndLabel(|s.subprograms|));
    case _ =>
  }

  function Texts(ls: seq<Line>): seq<string> {
    seq(|ls|, i requires 0 <= i < |ls| => ls[i].text)
  }

  lemma TextsOfMore(ls: seq<Line>, n: nat)
    requires 0 < n <= |ls|
    ensures Texts(ls[..n]) == Texts(ls[..n - 1]) + [ls[n - 1].text]
  {
    assert ls[..n] == ls[..n - 1] + [ls[n - 1]];
  }

  /** Deleting the injected lines gives the assembly back, line by line and in order. */
  lemma {:induction false} OriginalLinesSurvive(ls: seq<Line>, n: nat)
    requires n <= |ls|
    ensures Originals(After(ls, n).out) == Texts(ls[..n])
  {
    if n > 0 {
      OriginalLinesSurvive(ls, n - 1);
      StepKeepsOriginals(After(ls, n - 1), ls[n - 1]);
      TextsOfMore(ls, n);
    }
  }

  lemma DeletingInjectedLinesRestores(lines: seq<string>)
    ensures Originals(After(Read(lines), |lines|).out) == lines
  {
    var ls := Read(lines);
    OriginalLinesSurvive(ls, |ls|);
    assert ls[..|ls|] == ls && Texts(ls) == lines;
  }

  // ---- end labels ----

  /** The indices of the end labels, in output order. */
  function Labels(out: seq<OutLine>): seq<nat> {
    if out == [] then []
    else
      var k := |out| - 1;
      Labels(out[..k]) + if out[k].EndLabel? then [out[k].index] else []
  }

  lemma LabelsAppend(out: seq<OutLine>, x: OutLine)
    ensures Labels(out + [x]) == Labels(out) + if x.EndLabel? then [x.index] else []
  {
    assert (out + [x])[..|out|] == out;
  }

  function UpTo(n: nat): (r: seq<nat>)
    ensures |r| == n && forall i | 0 <= i < n :: r[i] == i
  {
    if n == 0 then [] else UpTo(n - 1) + [n - 1]
  }

  lemma StepNumbersLabels(s: State, line: Line)
    ensures Labels(Step(s, line).out) == Labels(s.out) + if line.marker.Closes? && s.open.Some? then [|s.subprograms|]
      else []
  {
    var out := s.out + [Original(line.text)];
    LabelsAppend(s.out, Original(line.text));
    match line.marker
    case SourceAt(l, c) => LabelsAppend(out, Loc(l, c));
    case Closes => LabelsAppend(out, EndLabel(|s.subprograms|));
    case _ =>
  }

  predicate Numbered(s: State) {
    Labels(s.out) == UpTo(|s.subprograms|) && forall i | 0 <= i < |s.subprograms| :: s.subprograms[i].endLabel == i
  }

  lemma NumberedStep(s: State, line: Line)
    requires Numbered(s)
    ensures Numbered(Step(s, line))
  {
    StepNumbersLabels(s, line);
    assert UpTo(|s.subprograms| + 1) == UpTo(|s.subprograms|) + [|s.subprograms|];
  }

  /** The labels are numbered 0 to k-1, each defined once, and the i-th record carries the i-th. */
  lemma {:induction false} LabelsAreNumbered(ls: seq<Line>, n: nat)
    requires n <= |ls|
    ensures Numbered(After(ls, n))
    ensures Labels(After(ls, n).out) == UpTo(|After(ls, n).subprograms|)
    ensures forall i | 0 <= i < |After(ls, n).subprograms| :: After(ls, n).subprograms[i].endLabel == i
  {
    if n > 0 {
      LabelsAreNumbered(ls, n - 1);
      NumberedStep(After(ls, n - 1), ls[n - 1]);
    }
  }

  predicate Quiet(ls: seq<Line>, from_: nat, to: nat) {
    to <= |ls| && forall m | from_ <= m < to :: !ls[m].marker.Opens? && !ls[m].marker.Closes?
  }

  /** Line `o` opened a region that no line up to `n` has replaced or closed. */
  predicate OpenedAt(ls: seq<Line>, n: nat, o: nat) {
    o < n <= |ls| && ls[o].marker.Opens? && Quiet(ls, o + 1, n)
  }

  /** Line `c` closes the region opened at line `o`. */
  predicate Pairs(ls: seq<Line>, o: nat, c: nat) {
    c < |ls| && ls[c].marker.Closes? && OpenedAt(ls, c, o)
  }

  /** The open region is that of the last opening line, unless a line has closed it since. */
  lemma {:induction false} OpenRegion(ls: seq<Line>, n: nat) returns (o: nat)
    requires n <= |ls|
    ensures After(ls, n).open.Some? ==> OpenedAt(ls, n, o) && ls[o].marker == Opens(After(ls, n).open.value)
  {
    o := 0;
    if n > 0 {
      o := OpenRegion(ls, n - 1);
      if ls[n - 1].marker.Opens? {
        o := n - 1;
      }
    }
  }

  lemma {:induction false} OpenedRegion(ls: seq<Line>, n: nat, o: nat)
    requires OpenedAt(ls, n, o)
    ensures After(ls, n).open == Some(ls[o].marker.region)
  {
    if o < n - 1 {
      assert OpenedAt(ls, n - 1, o);
      OpenedRegion(ls, n - 1, o);
    }
  }

  /** The line's step adds an end label behind the line. */
  predicate Labelled(ls: seq<Line>, c: nat)
    requires c < |ls|
  {
    After(ls, c + 1).out == After(ls, c).out + [Original(ls[c].text)] + [EndLabel(|After(ls, c).subprograms|)]
  }

  /** A label follows exactly the lines that close an open region. */
  lemma LabelsFollowClosings(ls: seq<Line>, c: nat)
    requires c < |ls|
    ensures Labelled(ls, c) <==> exists o: nat :: Pairs(ls, o, c)
  {
    var s := After(ls, c);
    if o: nat :| Pairs(ls, o, c) {
      OpenedRegion(ls, c, o);
    }
    if Labelled(ls, c) {
      var t := After(ls, c + 1);
      assert |t.out| == |s.out| + 2 && t.out[|s.out| + 1].EndLabel?;
      var o := OpenRegion(ls, c);
      assert Pairs(ls, o, c);
    }
  }

  /** The record written at a closing line names the region that line closes. */
  lemma RecordsNameTheirRegions(ls: seq<Line>, o: nat, c: nat)
    requires Pairs(ls, o, c)
    ensures var s := After(ls, c);
      After(ls, c + 1).subprograms == s.subprograms + [Subprogram(ls[o].marker.region, |s.subprograms|)]
  {
    OpenedRegion(ls, c, o);
  }

  /** A source position follows exactly the line that carries it. */
  lemma PositionsFollowTheirMarkers(ls: seq<Line>, k: nat, l: nat, c: nat)
    requires k < |ls|
    ensures ls[k].marker == SourceAt(l, c)
      <==> After(ls, k + 1).out == After(ls, k).out + [Original(ls[k].text)] + [Loc(l, c)]
  {
    var s, t := After(ls, k), After(ls, k + 1);
    if t.out == s.out + [Original(ls[k].text)] + [Loc(l, c)] {
      assert |t.out| == |s.out| + 2 && t.out[|s.out| + 1] == Loc(l, c);
    }
  }

  /** A line of assembly with the source position it was compiled from. */
  datatype Located = Located(text: string, line: nat, col: nat)

  function TextBefore(out: seq<OutLine>, k: nat): string
    requires k <= |out|
  {
    if k > 0 && out[k - 1].Original? then out[k - 1].text else ""
  }

  /** The positions injected, each with the original line it stands behind. */
  function LocatedLines(out: seq<OutLine>): seq<Located> {
    if out == [] then []
    else
      var k := |out| - 1;
      LocatedLines(out[..k]) + if out[k].Loc? then [Located(TextBefore(out, k), out[k].line, out[k].col)] else []
  }

  /** The lines that carry a position. */
  function CarryingLines(ls: seq<Line>): seq<Located> {
    if ls == [] then []
    else
      var k := |ls| - 1;
      CarryingLines(ls[..k]) + if ls[k].marker.SourceAt? then [Located(ls[k].text, ls[k].marker.line, ls[k].marker.col)]
        else []
  }

  lemma LocatedAppend(out: seq<OutLine>, x: OutLine)
    ensures LocatedLines(out + [x]) == LocatedLines(out) + if x.Loc?
      then [Located(TextBefore(out, |out|), x.line, x.col)] else []
  {
    assert (out + [x])[..|out|] == out;
  }

  lemma CopyLocatesNothing(out: seq<OutLine>, text: string)
    ensures LocatedLines(out + [Original(text)]) == LocatedLines(out)
      && TextBefore(out + [Original(text)], |out| + 1) == text
  {
    LocatedAppend(out, Original(text));
  }

  lemma StepLocates(s: State, line: Line)
    ensures LocatedLines(Step(s, line).out) == LocatedLines(s.out)
      + if line.marker.SourceAt? then [Located(line.text, line.marker.line, line.marker.col)] else []
  {
    var out := s.out + [Original(line.text)];
    CopyLocatesNothing(s.out, line.text);
    match line.marker
    case SourceAt(l, c) => LocatedAppend(out, Loc(l, c));
    case Closes => LocatedAppend(out, EndLabel(|s.subprograms|));
    case _ =>
  }

  /** The positions injected are those the lines carry, in order, each right behind its line. */
  lemma {:induction false} PositionsAreTheMarkersInOrder(ls: seq<Line>, n: nat)
    requires n <= |ls|
    ensures LocatedLines(After(ls, n).out) == CarryingLines(ls[..n])
  {
    if n > 0 {
      PositionsAreTheMarkersInOrder(ls, n - 1);
      StepLocates(After(ls, n - 1), ls[n - 1]);
      assert ls[..n][..n - 1] == ls[..n - 1];
    }
  }

  // ---- subprogram records ----

  /** One record of the debug-information section: its name as an escaped string, its entry symbol
      and the label its length is measured to. */
  datatype Record = Record(name: string, lowPc: string, endLabel: nat)

  /** An escaped name that the assembler decodes to the bytes of the name. */
  predicate Decodes(escaped: string, name: string) {
    Unescape(escaped) == Some(BytesOf(name))
  }

  lemma EscapedDecodes(name: string)
    ensures Decodes(Escape(BytesOf(name)), name)
  {
    EncodingIsBytes(name);
    UnescapeInvertsEscape(BytesOf(name));
  }

  method EmitSubprograms(subprograms: seq<Subprogram>) returns (records: seq<Record>)
    ensures |records| == |subprograms|
    ensures forall i | 0 <= i < |records| ::
      records[i].endLabel == subprograms[i].endLabel && records[i].lowPc == subprograms[i].region.symbol
    ensures forall i | 0 <= i < |records| :: Decodes(records[i].name, subprograms[i].region.name)
  {
    records := [];
    var i := 0;
    while i < |subprograms|
      invariant 0 <= i <= |subprograms| && |records| == i
      invariant forall j | 0 <= j < i ::
        records[j].endLabel == subprograms[j].endLabel && records[j].lowPc == subprograms[j].region.symbol
      invariant forall j | 0 <= j < i :: Decodes(records[j].name, subprograms[j].region.name)
    {
      var s := subprograms[i];
      EscapedDecodes(s.region.name);
      records := records + [Record(Escape(BytesOf(s.region.name)), s.region.symbol, s.endLabel)];
      i := i + 1;
    }
  }

  // ---- UTF-8 ----

  /** One character in UTF-8 (RFC 3629, section 3). */
  function Encoded(c: char): seq<int> {
    var n := c as int;
    if n < 0x80 then [n]
    else if n < 0x800 then [0xC0 + n / 64, 0x80 + n % 64]
    else if n < 0x10000 then [0xE0 + n / 4096, 0x80 + n / 64 % 64, 0x80 + n % 64]
    else [0xF0 + n / 262144, 0x80 + n / 4096 % 64, 0x80 + n / 64 % 64, 0x80 + n % 64]
  }

  /** The bytes of a Rust string. */
  function BytesOf(s: string): seq<int> {
    if s == "" then [] else Encoded(s[0]) + BytesOf(s[1..])
  }

  /** How many bytes the character that starts with this one takes. */
  function Width(first: int): nat {
    if first < 0x80 then 1 else if first < 0xE0 then 2 else if first < 0xF0 then 3 else 4
  }

  function CodePoint(bytes: seq<int>): int
    requires bytes != [] && |bytes| == Width(bytes[0])
  {
    match |bytes|
    case 1 => bytes[0]
    case 2 => (bytes[0] - 0xC0) * 64 + (bytes[1] - 0x80)
    case 3 => (bytes[0] - 0xE0) * 4096 + (bytes[1] - 0x80) * 64 + (bytes[2] - 0x80)
    case 4 => (bytes[0] - 0xF0) * 262144 + (bytes[1] - 0x80) * 4096 + (bytes[2] - 0x80) * 64 + (bytes[3] - 0x80)
  }

  /** The code points a byte string spells. */
  function CodePoints(bytes: seq<int>): Option<seq<int>>
    decreases |bytes|
  {
    if bytes == [] then Some([])
    else
      var w := Width(bytes[0]);
      if w > |bytes| then None
      else match CodePoints(bytes[w..]) case Some(more) => Some([CodePoint(bytes[..w])] + more) case None => None
  }

  lemma SixBits(n: nat)
    ensures n / 64 * 64 + n % 64 == n && n / 64 / 64 == n / 4096 && n / 64 / 64 / 64 == n / 262144
  {
  }

  lemma TwoBytes(n: nat)
    requires 0x80 <= n < 0x800
    ensures 0xC0 <= 0xC0 + n / 64 < 0xE0 && 0x80 <= 0x80 + n % 64 < 0xC0 && n / 64 * 64 + n % 64 == n
  {
  }

  lemma ThreeBytes(n: nat)
    requires 0x800 <= n < 0x10000
    ensures 0xE0 <= 0xE0 + n / 4096 < 0xF0 && n / 4096 * 4096 + n / 64 % 64 * 64 + n % 64 == n
  {
    SixBits(n);
  }

  lemma FourBytes(n: nat)
    requires 0x10000 <= n < 0x110000
    ensures 0xF0 <= 0xF0 + n / 262144 < 0xF8
    ensures n / 262144 * 262144 + n / 4096 % 64 * 4096 + n / 64 % 64 * 64 + n % 64 == n
  {
    SixBits(n);
  }

  lemma EncodedFacts(c: char)
    ensures var e := Encoded(c); e != [] && IsBytes(e) && |e| == Width(e[0]) && CodePoint(e) == c as int
  {
    var n := c as int;
    if 0x80 <= n < 0x800 {
      TwoBytes(n);
    } else if 0x800 <= n < 0x10000 {
      ThreeBytes(n);
    } else if 0x10000 <= n {
      FourBytes(n);
    }
  }

  lemma {:induction false} EncodingIsBytes(s: string)
    ensures IsBytes(BytesOf(s))
  {
    if s != "" {
      EncodedFacts(s[0]);
      EncodingIsBytes(s[1..]);
    }
  }

  lemma FirstPoint(e: seq<int>, more: seq<int>)
    requires e != [] && |e| == Width(e[0]) && CodePoints(more).Some?
    ensures CodePoints(e + more) == Some([CodePoint(e)] + CodePoints(more).value)
  {
    var all := e + more;
    assert all[..|e|] == e && all[|e|..] == more && all[0] == e[0];
  }

  function Points(s: string): seq<int> {
    seq(|s|, i requires 0 <= i < |s| => s[i] as int)
  }

  lemma PointsOfMore(s: string)
    requires s != ""
    ensures Points(s) == [s[0] as int] + Points(s[1..])
  {
  }

  /** The bytes of a name spell its characters, so no two names have the same bytes. */
  lemma {:induction false} EncodingIsExact(s: string)
    ensures CodePoints(BytesOf(s)) == Some(Points(s))
  {
    if s == "" {
      assert Points(s) == [];
    } else {
      EncodedFacts(s[0]);
      EncodingIsExact(s[1..]);
      FirstPoint(Encoded(s[0]), BytesOf(s[1..]));
      PointsOfMore(s);
    }
  }

  lemma NamesKeepTheirBytes(s: string, t: string)
    requires BytesOf(s) == BytesOf(t)
    ensures s == t
  {
    EncodingIsExact(s);
    EncodingIsExact(t);
    assert |s| == |Points(s)| == |t|;
    forall i | 0 <= i < |s| ensures s[i] == t[i] {
      assert Points(s)[i] == Points(t)[i];
    }
  }

  // ---- escaping ----

  predicate IsBytes(bytes: seq<int>) {
    forall i | 0 <= i < |bytes| :: 0 <= bytes[i] < 256
  }

  function OctalDigit(d: int): char {
    if 0 <= d < 8 then '0' + d as char else '0'
  }

  function EscapeByte(b: int): string {
    if b == 10 then "\\n"
    else if b == 9 then "\\t"
    else if b == 92 then "\\\\"
    else if b == 34 then "\\\""
    else if 32 <= b <= 126 then [b as char]
    else ['\\', OctalDigit(b / 64), OctalDigit(b / 8 % 8), OctalDigit(b % 8)]
  }

  function Escape(bytes: seq<int>): string {
    if bytes == [] then "" else EscapeByte(bytes[0]) + Escape(bytes[1..])
  }

  predicate IsOctal(c: char) {
    '0' <= c <= '7'
  }

  function OctalValue(c: char): int {
    c as int - '0' as int
  }

  /** How the assembler reads one character or escape: the byte, and how much text it took. */
  function ReadOne(s: string): Option<(int, nat)>
    requires s != ""
  {
    if s[0] != '\\' then Some((s[0] as int, 1))
    else if |s| < 2 then None
    else if s[1] == 'n' then Some((10, 2))
    else if s[1] == 't' then Some((9, 2))
    else if s[1] == '\\' then Some((92, 2))
    else if s[1] == '"' then Some((34, 2))
    else if |s| >= 4 && IsOctal(s[1]) && IsOctal(s[2]) && IsOctal(s[3]) then
      Some((64 * OctalValue(s[1]) + 8 * OctalValue(s[2]) + OctalValue(s[3]), 4))
    else None
  }

  /** The text of a string literal up to its closing quote, decoded; nothing when it is malformed. */
  function Unescape(s: string): Option<seq<int>>
    decreases |s|
  {
    if s == "" then Some([])
    else if s[0] == '"' || s[0] == '\n' then None
    else
      match ReadOne(s)
      case None => None
      case Some((b, n)) =>
        if n > |s| then None
        else match Unescape(s[n..]) case Some(rest) => Some([b] + rest) case None => None
  }

  lemma OctalRoundTrip(b: int)
    requires 0 <= b < 256
    ensures 64 * (b / 64) + 8 * (b / 8 % 8) + b % 8 == b && 0 <= b / 64 < 8
  {
  }

  lemma ReadEscaped(b: int, rest: string)
    requires 0 <= b < 256
    ensures var e := EscapeByte(b); e != "" && ReadOne(e + rest) == Some((b, |e|)) && e[0] != '"' && e[0] != '\n'
  {
    OctalRoundTrip(b);
    var e := EscapeByte(b);
    var s := e + rest;
    assert forall i | 0 <= i < |e| :: s[i] == e[i];
  }

  lemma HeadAndTail(bytes: seq<int>)
    requires bytes != [] && IsBytes(bytes)
    ensures bytes == [bytes[0]] + bytes[1..] && IsBytes(bytes[1..]) && 0 <= bytes[0] < 256
    ensures Escape(bytes) == EscapeByte(bytes[0]) + Escape(bytes[1..])
  {
  }

  lemma UnescapeStep(b: int, rest: string)
    requires 0 <= b < 256
    ensures Unescape(EscapeByte(b) + rest) == match Unescape(rest) case Some(more) => Some([b] + more) case None => None
  {
    var e := EscapeByte(b);
    ReadEscaped(b, rest);
    assert (e + rest)[|e|..] == rest && (e + rest)[0] == e[0];
  }

  /** The assembler decodes an escaped string to the original bytes. */
  lemma {:induction false} UnescapeInvertsEscape(bytes: seq<int>)
    requires IsBytes(bytes)
    ensures Unescape(Escape(bytes)) == Some(bytes)
  {
    if bytes != [] {
      var first, more := bytes[0], bytes[1..];
      HeadAndTail(bytes);
      UnescapeInvertsEscape(more);
      UnescapeStep(first, Escape(more));
    }
  }

  /** The position of the first quote that ends a string literal. */
  function ClosingQuote(s: string): Option<nat>
    decreases |s|
  {
    if s == "" then None
    else if s[0] == '"' then Some(0)
    else
      var n := if s[0] == '\\' then 2 else 1;
      if n > |s| then None
      else match ClosingQuote(s[n..]) case Some(i) => Some(i + n) case None => None
  }

  /** An escape is one character, or a backslash and one to three characters that are no quote. */
  lemma {:induction false} SkipEscaped(b: int, rest: string)
    requires 0 <= b < 256
    ensures ClosingQuote(EscapeByte(b) + rest)
      == match ClosingQuote(rest) case Some(i) => Some(i + |EscapeByte(b)|) case None => None
  {
    var e := EscapeByte(b);
    var s := e + rest;
    assert forall i | 0 <= i < |e| :: s[i] == e[i];
    if |e| == 1 {
      assert s[1..] == rest;
    } else if |e| == 2 {
      assert s[2..] == rest;
    } else {
      SkipDigits(s, rest);
    }
  }

  lemma SkipDigits(s: string, rest: string)
    requires |s| >= 4 && s[0] == '\\' && IsOctal(s[2]) && IsOctal(s[3]) && s[4..] == rest
    ensures ClosingQuote(s) == match ClosingQuote(rest) case Some(i) => Some(i + 4) case None => None
  {
    var two := s[2..];
    var one := two[1..];
    assert two[0] == s[2] && one[0] == s[3] && one[1..] == rest;
    assert ClosingQuote(one) == match ClosingQuote(rest) case Some(i) => Some(i + 1) case None => None;
    assert ClosingQuote(two) == match ClosingQuote(one) case Some(i) => Some(i + 1) case None => None;
  }

  /** No byte string can end its literal early: the literal closes at the quote written after it. */
  lemma {:induction false} LiteralClosesAtItsQuote(bytes: seq<int>, rest: string)
    requires IsBytes(bytes)
    ensures ClosingQuote(Escape(bytes) + "\"" + rest) == Some(|Escape(bytes)|)
  {
    var tail := "\"" + rest;
    if bytes == [] {
      assert Escape(bytes) + "\"" + rest == tail;
    } else {
      var e, more := EscapeByte(bytes[0]), Escape(bytes[1..]);
      LiteralClosesAtItsQuote(bytes[1..], rest);
      SkipEscaped(bytes[0], more + "\"" + rest);
      assert Escape(bytes) + "\"" + rest == e + (more + "\"" + rest);
    }
  }
}
