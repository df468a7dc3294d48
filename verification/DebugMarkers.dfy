/** The markers as the code generator writes them, and what the injector reads in them: positions
    come back whole, and a region comes back exactly when its name holds no blank. */
module DebugMarkers {
  import opened Wrappers
  import opened DebugInfo

  // ---- what the code generator writes ----

  /** A number in decimal. */
  function Dec(n: nat): string {
    if n < 10 then ['0' + n as char] else Dec(n / 10) + ['0' + (n % 10) as char]
  }

  /** A comment line; the prefix is the target's comment sign. */
  function Comment(prefix: string, text: string): string {
    "    " + prefix + " " + text
  }

  datatype Extent = Extent(line: nat, col: nat)

  /** What follows the position: its end when it has an extent, the operation, and its origin. */
  function Details(end: Option<Extent>, op: string, origin: Option<string>): string {
    (match end case Some(e) => " end=" + Dec(e.line) + ":" + Dec(e.col) case None => "")
    + " op=" + op
    + (match origin case Some(o) => " origin=" + o case None => "")
  }

  function SourceMarker(line: nat, col: nat, details: string): string {
    "@src line=" + Dec(line) + " col=" + Dec(col) + details
  }

  function OpenMarker(name: string, symbol: string, synthetic: bool): string {
    "@fn name=" + name + " symbol=" + symbol + if synthetic then " synthetic=1" else ""
  }

  function CloseMarker(name: string): string {
    "@endfn name=" + name
  }

  // ---- decimals ----

  lemma {:induction false} DigitsOfSnoc(s: string, c: char, value: nat)
    ensures Digits(s + [c], value) == match Digits(s, value) case Some(m) => Digits([c], m) case None => None
  {
    if s == "" {
      assert s + [c] == [c];
    } else {
      assert (s + [c])[0] == s[0] && (s + [c])[1..] == s[1..] + [c];
      if '0' <= s[0] <= '9' {
        var more := 10 * value + (s[0] as int - '0' as int);
        if more <= MAX_USIZE {
          DigitsOfSnoc(s[1..], c, more);
        }
      }
    }
  }

  lemma OneDigit(d: nat, value: nat)
    requires d < 10
    ensures Digits(['0' + d as char], value) == if 10 * value + d > MAX_USIZE then None else Some(10 * value + d)
  {
    var c := '0' + d as char;
    assert c as int - '0' as int == d;
    assert [c][1..] == "";
  }

  /** A printed number is read back as long as it fits the word size, and refused otherwise. */
  lemma {:induction false} DecimalIsRead(n: nat)
    ensures Digits(Dec(n), 0) == if n <= MAX_USIZE then Some(n) else None
  {
    OneDigit(n % 10, n / 10);
    if n < 10 {
      OneDigit(n, 0);
    } else {
      DecimalIsRead(n / 10);
      DigitsOfSnoc(Dec(n / 10), '0' + (n % 10) as char, 0);
    }
  }

  lemma {:induction false} DecimalIsDigits(n: nat)
    ensures Dec(n) != "" && forall i | 0 <= i < |Dec(n)| :: '0' <= Dec(n)[i] <= '9'
  {
    if n >= 10 {
      DecimalIsDigits(n / 10);
    }
  }

  lemma NumberIsRead(n: nat)
    ensures ParseNumber(Dec(n)) == if n <= MAX_USIZE then Some(n) else None
    ensures ParseNumber("+" + Dec(n)) == ParseNumber(Dec(n))
  {
    DecimalIsRead(n);
    DecimalIsDigits(n);
    assert ("+" + Dec(n))[1..] == Dec(n);
  }

  function Zeros(k: nat): string {
    if k == 0 then "" else Zeros(k - 1) + "0"
  }

  /** The digits of a number behind some zeros. */
  predicate Padded(digits: string, n: nat, k: nat) {
    digits == Zeros(k) + Dec(n)
  }

  lemma {:induction false} ZerosAreSkipped(k: nat)
    ensures Digits(Zeros(k), 0) == Some(0)
  {
    if k > 0 {
      ZerosAreSkipped(k - 1);
      OneDigit(0, 0);
      DigitsOfSnoc(Zeros(k - 1), '0', 0);
      assert Zeros(k) == Zeros(k - 1) + ['0'];
    }
  }

  lemma {:induction false} PaddedIsRead(digits: string, n: nat, k: nat)
    requires Padded(digits, n, k) && n <= MAX_USIZE
    ensures Digits(digits, 0) == Some(n)
    decreases n
  {
    OneDigit(n % 10, n / 10);
    if n < 10 {
      ZerosAreSkipped(k);
      DigitsOfSnoc(Zeros(k), '0' + n as char, 0);
    } else {
      PaddedIsRead(Zeros(k) + Dec(n / 10), n / 10, k);
      DigitsOfSnoc(Zeros(k) + Dec(n / 10), '0' + (n % 10) as char, 0);
      assert digits == Zeros(k) + Dec(n / 10) + ['0' + (n % 10) as char];
    }
  }

  lemma {:induction false} ReadIsPadded(digits: string) returns (n: nat, k: nat)
    requires digits != "" && Digits(digits, 0).Some?
    ensures Digits(digits, 0) == Some(n) && n <= MAX_USIZE && Padded(digits, n, k)
  {
    var last := |digits| - 1;
    var init, c := digits[..last], digits[last];
    assert digits == init + [c];
    DigitsOfSnoc(init, c, 0);
    var d := c as int - '0' as int;
    if init == "" {
      n := LastDigit(digits, c, 0);
      k := 0;
      assert Zeros(0) + Dec(n) == digits;
    } else {
      var m, j := ReadIsPadded(init);
      n := LastDigit(digits, c, m);
      k := if m == 0 then j + 1 else j;
      PaddedByOne(init, c, m, j, n, k);
    }
  }

  lemma LastDigit(digits: string, c: char, m: nat) returns (n: nat)
    requires Digits([c], m).Some?
    ensures '0' <= c <= '9' && n == 10 * m + (c as int - '0' as int) && Digits([c], m) == Some(n) && n <= MAX_USIZE
  {
    n := 10 * m + (c as int - '0' as int);
    assert [c][1..] == "";
  }

  lemma PaddedByOne(init: string, c: char, m: nat, j: nat, n: nat, k: nat)
    requires Padded(init, m, j) && '0' <= c <= '9' && n == 10 * m + (c as int - '0' as int)
    requires k == if m == 0 then j + 1 else j
    ensures Padded(init + [c], n, k)
  {
    assert c == '0' + (c as int - '0' as int) as char;
    if m == 0 {
      assert Dec(0) == "0" && Dec(n) == [c];
      assert Zeros(j) + "0" == Zeros(j + 1);
    } else {
      assert n / 10 == m && n % 10 == c as int - '0' as int;
      assert Zeros(j) + Dec(m) + [c] == Zeros(j) + (Dec(m) + [c]);
    }
  }

  ghost predicate Numeral(s: string, n: nat) {
    n <= MAX_USIZE && exists k: nat :: Padded(s, n, k) || (s != "" && s[0] == '+' && Padded(s[1..], n, k))
  }

  /** A value counts as a number exactly when it is a decimal of the word size, zeros and a plus sign
      in front allowed. */
  lemma NumbersExactly(s: string, n: nat)
    ensures ParseNumber(s) == Some(n) <==> Numeral(s, n)
  {
    var digits := if s != "" && s[0] == '+' then s[1..] else s;
    if ParseNumber(s) == Some(n) {
      var m, k := ReadIsPadded(digits);
      assert Padded(digits, n, k);
    }
    if Numeral(s, n) {
      var k: nat :| Padded(s, n, k) || (s != "" && s[0] == '+' && Padded(s[1..], n, k));
      NoSignInDigits(n, k);
      PaddedIsRead(digits, n, k);
    }
  }

  lemma {:induction false} NoSignInDigits(n: nat, k: nat)
    ensures Zeros(k) + Dec(n) != "" && (Zeros(k) + Dec(n))[0] != '+'
  {
    DecimalIsDigits(n);
    if k > 0 {
      NoSignInDigits(n, k - 1);
      FirstZero(k);
    }
  }

  lemma {:induction false} FirstZero(k: nat)
    requires k > 0
    ensures Zeros(k) != "" && Zeros(k)[0] == '0'
  {
    if k > 1 {
      FirstZero(k - 1);
    }
  }

  // ---- finding a marker in its line ----

  lemma {:induction false} FoundMatches(s: string, tag: string)
    ensures Find(s, tag).Some? ==> s[Find(s, tag).value..][..|tag|] == tag
  {
    if |s| >= |tag| && s[..|tag|] != tag && s != "" {
      FoundMatches(s[1..], tag);
      if Find(s[1..], tag).Some? {
        assert s[1..][Find(s[1..], tag).value..] == s[Find(s, tag).value..];
      }
    }
  }

  lemma {:induction false} MatchIsFound(s: string, tag: string, k: nat)
    requires k + |tag| <= |s| && s[k..][..|tag|] == tag
    ensures Find(s, tag).Some?
  {
    if k > 0 && s[..|tag|] != tag {
      assert s[1..][k - 1..] == s[k..];
      MatchIsFound(s[1..], tag, k - 1);
    }
  }

  lemma NoSignNoTag(s: string, tag: string)
    requires '@' !in s && tag != "" && tag[0] == '@'
    ensures Find(s, tag) == None
  {
    FoundMatches(s, tag);
    assert forall k: nat | k + |tag| <= |s| :: s[k..][..|tag|][0] == s[k];
  }

  /** In a line with one `@`, a tag is found exactly when it stands there. */
  lemma {:induction false} TagAtTheSign(before: string, rest: string, tag: string)
    requires '@' !in before && '@' !in rest && tag != "" && tag[0] == '@'
    ensures Find(before + "@" + rest, tag) == if tag <= "@" + rest then Some(|before|) else None
    decreases |before|
  {
    var s := before + "@" + rest;
    if before == "" {
      assert s == "@" + rest && s[1..] == rest;
      NoSignNoTag(rest, tag);
    } else {
      assert s[0] == before[0] && s[1..] == before[1..] + "@" + rest;
      TagAtTheSign(before[1..], rest, tag);
      assert |s| >= |tag| ==> s[..|tag|][0] == s[0];
    }
  }

  lemma TagInLine(before: string, tag: string, marker: string)
    requires '@' !in marker && tag != "" && tag[0] == '@' && '@' !in tag[1..]
    ensures before + tag + marker == before + "@" + (tag[1..] + marker) && '@' !in tag[1..] + marker
    ensures tag + marker == "@" + (tag[1..] + marker)
  {
    assert tag == "@" + tag[1..];
  }

  lemma MarkerIsFound(before: string, tag: string, marker: string)
    requires '@' !in before && '@' !in marker && tag != "" && tag[0] == '@' && '@' !in tag[1..]
    ensures AfterTag(before + tag + marker, tag) == Some(marker)
  {
    TagInLine(before, tag, marker);
    TagAtTheSign(before, tag[1..] + marker, tag);
    assert (before + tag + marker)[|before| + |tag|..] == marker;
    NoSignNoTag(marker, tag);
  }

  lemma OtherTagIsAbsent(before: string, tag: string, marker: string, other: string)
    requires '@' !in before && '@' !in marker && tag != "" && tag[0] == '@' && '@' !in tag[1..]
    requires other != "" && other[0] == '@' && !(other <= tag + marker)
    ensures Find(before + tag + marker, other) == None
  {
    TagInLine(before, tag, marker);
    TagAtTheSign(before, tag[1..] + marker, other);
  }

  // ---- words ----

  const BLANKS: set<int> := {
    0x09, 0x0A, 0x0B, 0x0C, 0x0D, 0x20, 0x85, 0xA0, 0x1680, 0x2000, 0x2001, 0x2002, 0x2003, 0x2004, 0x2005, 0x2006,
    0x2007, 0x2008, 0x2009, 0x200A, 0x2028, 0x2029, 0x202F, 0x205F, 0x3000
  }

  lemma BlanksAreTheSpaces(c: char)
    ensures IsSpace(c) <==> c as int in BLANKS
  {
  }

  predicate Unbroken(s: string) {
    forall i | 0 <= i < |s| :: !IsSpace(s[i])
  }

  predicate StartsBlank(s: string) {
    s == "" || IsSpace(s[0])
  }

  lemma {:induction false} FirstWord(w: string, rest: string, current: string)
    requires Unbroken(w) && StartsBlank(rest) && current + w != ""
    ensures Words(w + rest, current) == [current + w] + Words(rest, "")
    decreases |w|
  {
    if w == "" {
      assert w + rest == rest && current + w == current;
    } else {
      assert (w + rest)[0] == w[0] && (w + rest)[1..] == w[1..] + rest;
      assert current + [w[0]] + w[1..] == current + w;
      FirstWord(w[1..], rest, current + [w[0]]);
    }
  }

  lemma BlankIsSkipped(rest: string)
    ensures Words(" " + rest, "") == Words(rest, "")
  {
    assert (" " + rest)[1..] == rest;
  }

  /** A text up to its first blank. */
  function Head(s: string): (h: string)
    ensures |h| <= |s| && h == s[..|h|] && Unbroken(h) && StartsBlank(s[|h|..])
  {
    if StartsBlank(s) then "" else [s[0]] + Head(s[1..])
  }

  lemma HeadIsWhole(s: string)
    ensures Head(s) == s <==> Unbroken(s)
  {
    assert |Head(s)| < |s| ==> s[|Head(s)|..][0] == s[|Head(s)|];
  }

  // ---- positions ----

  lemma ValueOfFirst(words: seq<string>, key: string, value: string)
    requires words != [] && words[0] == key + "=" + value
    ensures ValueIn(words, key) == Some(value)
  {
    assert words[0][..|key|] == key && words[0][|key|] == '=' && words[0][|key| + 1..] == value;
  }

  lemma OtherKey(words: seq<string>, key: string, other: string, value: string)
    requires words != [] && words[0] == other + "=" + value && key != "" && other != "" && key[0] != other[0]
    ensures ValueIn(words, key) == ValueIn(words[1..], key)
  {
    assert words[0][0] == other[0];
    assert |words[0]| > |key| ==> words[0][..|key|][0] == words[0][0];
  }

  /** The text from a key on, up to the first blank behind it, is one word. */
  lemma KeyIsAWord(key: string, s: string, rest: string)
    requires Unbroken(key) && StartsBlank(rest)
    ensures Words(key + "=" + s + rest, "") == [key + "=" + Head(s)] + Words(s[|Head(s)|..] + rest, "")
  {
    var w := key + "=" + Head(s);
    assert key + "=" + s + rest == w + (s[|Head(s)|..] + rest);
    FirstWord(w, s[|Head(s)|..] + rest, "");
    assert "" + w == w;
  }

  /** Two keys in a row: the first is read up to its first blank, the second too if the first has none. */
  lemma TwoKeys(k1: string, v1: string, k2: string, v2: string, rest: string)
    requires Unbroken(k1) && Unbroken(k2) && k1 != "" && k2 != "" && k1[0] != k2[0] && StartsBlank(rest)
    ensures var marker := k1 + "=" + v1 + (" " + (k2 + "=" + v2 + rest));
      && MarkerValue(marker, k1) == Some(Head(v1))
      && (Unbroken(v1) ==> MarkerValue(marker, k2) == Some(Head(v2)))
  {
    var second := k2 + "=" + v2 + rest;
    var words := Words(k1 + "=" + v1 + (" " + second), "");
    KeyIsAWord(k1, v1, " " + second);
    ValueOfFirst(words, k1, Head(v1));
    if Unbroken(v1) {
      HeadIsWhole(v1);
      assert v1[|Head(v1)|..] + (" " + second) == " " + second;
      BlankIsSkipped(second);
      KeyIsAWord(k2, v2, rest);
      OtherKey(words, k2, k1, Head(v1));
      ValueOfFirst(words[1..], k2, Head(v2));
    }
  }

  lemma DecimalIsWhole(n: nat)
    ensures Unbroken(Dec(n)) && Head(Dec(n)) == Dec(n) && '@' !in Dec(n)
  {
    DecimalIsDigits(n);
    HeadIsWhole(Dec(n));
  }

  function PositionText(line: nat, col: nat, details: string): string {
    "line" + "=" + Dec(line) + (" " + ("col" + "=" + Dec(col) + details))
  }

  lemma PositionKeys(line: nat, col: nat, details: string)
    requires StartsBlank(details)
    ensures MarkerValue(PositionText(line, col, details), "line") == Some(Dec(line))
    ensures MarkerValue(PositionText(line, col, details), "col") == Some(Dec(col))
  {
    DecimalIsWhole(line);
    DecimalIsWhole(col);
    TwoKeys("line", Dec(line), "col", Dec(col), details);
  }

  lemma PositionIsRead(line: nat, col: nat, details: string)
    requires StartsBlank(details)
    ensures PositionOf(PositionText(line, col, details))
      == if line <= MAX_USIZE && col <= MAX_USIZE then SourceAt(line, col) else Silent
  {
    PositionKeys(line, col, details);
    NumberIsRead(line);
    NumberIsRead(col);
  }

  lemma DetailsAreClean(end: Option<Extent>, op: string, origin: Option<string>)
    requires '@' !in op && (origin.Some? ==> '@' !in origin.value)
    ensures StartsBlank(Details(end, op, origin)) && '@' !in Details(end, op, origin)
  {
    if end.Some? {
      DecimalIsDigits(end.value.line);
      DecimalIsDigits(end.value.col);
    }
  }

  lemma KeysInLine(tag: string, k1: string, v1: string, k2: string, v2: string, rest: string, a: string, b: string)
    requires a == tag + (k1 + "=") && b == " " + (k2 + "=")
    ensures a + v1 + b + v2 + rest == tag + (k1 + "=" + v1 + (" " + (k2 + "=" + v2 + rest)))
  {
  }

  lemma SourceMarkerText(line: nat, col: nat, details: string)
    requires '@' !in details
    ensures SourceMarker(line, col, details) == "@src " + PositionText(line, col, details)
    ensures '@' !in PositionText(line, col, details)
  {
    DecimalIsWhole(line);
    DecimalIsWhole(col);
    KeysInLine("@src ", "line", Dec(line), "col", Dec(col), details, "@src line=", " col=");
  }

  lemma CommentText(prefix: string, tag: string, marker: string)
    requires '@' !in prefix
    ensures Comment(prefix, tag + marker) == ("    " + prefix + " ") + tag + marker && '@' !in "    " + prefix + " "
  {
  }

  /** The position written for an instruction is the position read, whatever follows it in the marker. */
  lemma SourceMarkerIsRead(prefix: string, line: nat, col: nat, end: Option<Extent>, op: string, origin: Option<string>)
    requires line <= MAX_USIZE && col <= MAX_USIZE
    requires '@' !in prefix && '@' !in op && (origin.Some? ==> '@' !in origin.value)
    ensures Meaning(Comment(prefix, SourceMarker(line, col, Details(end, op, origin)))) == SourceAt(line, col)
  {
    var details := Details(end, op, origin);
    DetailsAreClean(end, op, origin);
    SourceMarkerText(line, col, details);
    CommentText(prefix, "@src ", PositionText(line, col, details));
    MarkerIsFound("    " + prefix + " ", "@src ", PositionText(line, col, details));
    PositionIsRead(line, col, details);
  }

  // ---- regions ----

  /** A symbol of ASCII letters, digits, underscores, dollar signs and dots. */
  predicate Operand(s: string) {
    s != "" && forall i | 0 <= i < |s| ::
      var n := s[i] as int; 65 <= n <= 90 || 97 <= n <= 122 || 48 <= n <= 57 || n == 95 || n == 36 || n == 46
  }

  lemma OperandIsPlain(s: string)
    ensures Operand(s) <==> IsPlainSymbol(s)
    ensures Operand(s) ==> Unbroken(s)
  {
  }

  predicate HasBlank(s: string) {
    exists i :: 0 <= i < |s| && s[i] as int in BLANKS
  }

  lemma BlankBreaks(s: string)
    ensures HasBlank(s) <==> !Unbroken(s)
  {
    forall i | 0 <= i < |s|
      ensures IsSpace(s[i]) <==> s[i] as int in BLANKS
    {
      BlanksAreTheSpaces(s[i]);
    }
  }

  function OpeningText(name: string, symbol: string, flag: string): string {
    "name" + "=" + name + (" " + ("symbol" + "=" + symbol + flag))
  }

  const SYNTHETIC := "synthetic=1"

  lemma FlagIsFound(name: string, symbol: string)
    ensures Contains(OpeningText(name, symbol, " " + SYNTHETIC), SYNTHETIC)
  {
    var s := OpeningText(name, symbol, " " + SYNTHETIC);
    var k := |s| - |SYNTHETIC|;
    assert s[k..] == SYNTHETIC;
    MatchIsFound(s, SYNTHETIC, k);
  }

  /** The flag's equals sign follows a `c`; the two of the marker follow an `e` and an `l`. */
  lemma NoFlagIsFound(name: string, symbol: string)
    requires '=' !in name && '=' !in symbol
    ensures !Contains(OpeningText(name, symbol, ""), SYNTHETIC)
  {
    var s := OpeningText(name, symbol, "");
    var p := |name| + 12;
    assert s[4] == '=' && s[3] == 'e' && s[p] == '=' && s[p - 1] == 'l';
    assert forall i | 0 <= i < |s| && s[i] == '=' :: i == 4 || i == p;
    FoundMatches(s, SYNTHETIC);
    assert SYNTHETIC[9] == '=' && SYNTHETIC[8] == 'c' && |SYNTHETIC| == 11;
    forall k: nat | k + |SYNTHETIC| <= |s|
      ensures s[k..][..|SYNTHETIC|][9] == s[k + 9] && s[k..][..|SYNTHETIC|][8] == s[k + 8]
    {
    }
  }

  lemma OpeningIsRead(name: string, symbol: string)
    requires '=' !in name && '=' !in symbol
    ensures OpeningOf(OpeningText(name, symbol, "")) == Opens(Region(name, symbol))
      <==> Unbroken(name) && IsPlainSymbol(symbol)
  {
    NoFlagIsFound(name, symbol);
    TwoKeys("name", name, "symbol", symbol, "");
    HeadIsWhole(name);
    HeadIsWhole(symbol);
    OperandIsPlain(symbol);
  }

  lemma OpenMarkerText(name: string, symbol: string, synthetic: bool)
    requires '@' !in name && '@' !in symbol
    ensures var text := OpeningText(name, symbol, if synthetic then " " + SYNTHETIC else "");
      OpenMarker(name, symbol, synthetic) == "@fn " + text && '@' !in text
  {
    KeysInLine("@fn ", "name", name, "symbol", symbol, if synthetic then " " + SYNTHETIC
      else "", "@fn name=", " symbol=");
  }

  lemma OpeningMeans(prefix: string, text: string)
    requires '@' !in prefix && '@' !in text
    ensures Meaning(Comment(prefix, "@fn " + text)) == OpeningOf(text)
  {
    var before := "    " + prefix + " ";
    CommentText(prefix, "@fn ", text);
    MarkerIsFound(before, "@fn ", text);
    assert ("@fn " + text)[1] == 'f';
    OtherTagIsAbsent(before, "@fn ", text, "@src ");
  }

  /** The region written for a function is the region read exactly when its name holds no blank and
      its symbol is one operand. */
  lemma OpenMarkerIsReadExactly(prefix: string, name: string, symbol: string)
    requires '@' !in prefix && '@' !in name && '@' !in symbol && '=' !in name && '=' !in symbol
    ensures Meaning(Comment(prefix, OpenMarker(name, symbol, false))) == Opens(Region(name, symbol))
      <==> !HasBlank(name) && Operand(symbol)
  {
    OpenMarkerText(name, symbol, false);
    OpeningMeans(prefix, OpeningText(name, symbol, ""));
    OpeningIsRead(name, symbol);
    OperandIsPlain(symbol);
    BlankBreaks(name);
  }

  predicate UpToItsBlank(cut: string, name: string) {
    && |cut| <= |name| && cut == name[..|cut|] && !HasBlank(cut)
    && (|cut| < |name| ==> name[|cut|] as int in BLANKS)
  }

  /** A name with a blank, as an instantiated class with two arguments has, is cut at its first blank. */
  lemma RegionNameIsCut(prefix: string, name: string, symbol: string)
    requires '@' !in prefix && '@' !in name && '@' !in symbol
    ensures var meaning := Meaning(Comment(prefix, OpenMarker(name, symbol, false)));
      meaning.Opens? ==> UpToItsBlank(meaning.region.name, name)
  {
    OpenMarkerText(name, symbol, false);
    OpeningMeans(prefix, OpeningText(name, symbol, ""));
    TwoKeys("name", name, "symbol", symbol, "");
    var k := |Head(name)|;
    assert name[..k] == Head(name) && (k < |name| ==> name[k..][0] == name[k]);
    BlankBreaks(name[..k]);
    if k < |name| {
      BlanksAreTheSpaces(name[k]);
    }
  }

  /** A compiler-made body opens no region. */
  lemma SyntheticMarkerIsSilent(prefix: string, name: string, symbol: string)
    requires '@' !in prefix && '@' !in name && '@' !in symbol
    ensures Meaning(Comment(prefix, OpenMarker(name, symbol, true))) == Silent
  {
    OpenMarkerText(name, symbol, true);
    OpeningMeans(prefix, OpeningText(name, symbol, " " + SYNTHETIC));
    FlagIsFound(name, symbol);
  }

  lemma CloseMarkerIsRead(prefix: string, name: string)
    requires '@' !in prefix && '@' !in name
    ensures Meaning(Comment(prefix, CloseMarker(name))) == Closes
  {
    var before, text := "    " + prefix + " ", " name=" + name;
    assert CloseMarker(name) == "@endfn" + text;
    CommentText(prefix, "@endfn", text);
    MarkerIsFound(before, "@endfn", text);
    assert ("@endfn" + text)[1] == 'e';
    OtherTagIsAbsent(before, "@endfn", text, "@src ");
    OtherTagIsAbsent(before, "@endfn", text, "@fn ");
  }

  lemma PlainLineIsSilent(line: string)
    requires '@' !in line
    ensures Meaning(line) == Silent
  {
    NoSignNoTag(line, "@src ");
    NoSignNoTag(line, "@fn ");
    NoSignNoTag(line, "@endfn");
  }

  /** A function written between its markers is recorded under its name and symbol. */
  lemma FunctionIsRecorded(lines: seq<string>, o: nat, c: nat, prefix: string, name: string, symbol: string)
    requires '@' !in prefix && '@' !in name && '=' !in name && !HasBlank(name) && Operand(symbol)
    requires o < c < |lines| && lines[o] == Comment(prefix, OpenMarker(name, symbol, false))
    requires lines[c] == Comment(prefix, CloseMarker(name))
    requires forall m | o < m < c :: Meaning(lines[m]).SourceAt? || Meaning(lines[m]).Silent?
    ensures var s := After(Read(lines), c);
      After(Read(lines), c + 1).subprograms == s.subprograms + [Subprogram(Region(name, symbol), |s.subprograms|)]
  {
    OpenMarkerIsReadExactly(prefix, name, symbol);
    CloseMarkerIsRead(prefix, name);
    RecordsNameTheirRegions(Read(lines), o, c);
  }
}
