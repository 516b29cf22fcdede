/** Memory regions as the kernel lists them in /proc/self/maps, the parser of that list, and its round trips. */
module Maps {
  import opened Bytes

  datatype MemoryRegion = MemoryRegion(
    start: u64,
    end: u64,
    readable: bool,
    writable: bool,
    executable: bool,
    isPrivate: bool,
    offset: u64,
    device: string,
    inode: u64,
    pathname: Option<string>)
  {
    /** `end - start` in 64-bit arithmetic; a listing with end below start makes it underflow. */
    function Size(): Option<u64> {
      if start <= end then Some(end - start) else None
    }
  }

  // ---------------------------------------------------------------------
  // Splitting
  // ---------------------------------------------------------------------

  /** Unicode white space. */
  predicate IsSpace(c: char) {
    var n := c as int;
    || 0x09 <= n <= 0x0d || n == 0x20 || n == 0x85 || n == 0xa0 || n == 0x1680
    || 0x2000 <= n <= 0x200a || n == 0x2028 || n == 0x2029 || n == 0x202f || n == 0x205f || n == 0x3000
  }

  predicate IsWord(w: string) {
    w != "" && forall i :: 0 <= i < |w| ==> !IsSpace(w[i])
  }

  function TakeWord(s: string): (w: string)
    ensures |w| <= |s| && w == s[..|w|]
    ensures forall i :: 0 <= i < |w| ==> !IsSpace(w[i])
    ensures |w| == |s| || IsSpace(s[|w|])
  {
    if s == "" || IsSpace(s[0]) then "" else [s[0]] + TakeWord(s[1..])
  }

  /** The maximal runs of non-space characters. */
  function Words(s: string): (ws: seq<string>)
    ensures forall i :: 0 <= i < |ws| ==> IsWord(ws[i])
    decreases |s|
  {
    if s == "" then []
    else if IsSpace(s[0]) then Words(s[1..])
    else [TakeWord(s)] + Words(s[|TakeWord(s)|..])
  }

  function SplitOn(s: string, c: char): (r: seq<string>)
    ensures |r| >= 1
  {
    if s == "" then [""]
    else
      var rest := SplitOn(s[1..], c);
      if s[0] == c then [""] + rest else [[s[0]] + rest[0]] + rest[1..]
  }

  function Join(ws: seq<string>): string {
    if ws == [] then "" else if |ws| == 1 then ws[0] else ws[0] + " " + Join(ws[1..])
  }

  lemma {:induction false} TakeWordOf(w: string, rest: string)
    requires forall i :: 0 <= i < |w| ==> !IsSpace(w[i])
    requires rest == "" || IsSpace(rest[0])
    ensures TakeWord(w + rest) == w
  {
    if w == "" {
      assert w + rest == rest;
    } else {
      TakeWordOf(w[1..], rest);
      assert (w + rest)[1..] == w[1..] + rest;
    }
  }

  /** A word followed by a space, or by nothing, is the first word. */
  lemma WordsCons(w: string, rest: string)
    requires IsWord(w) && (rest == "" || IsSpace(rest[0]))
    ensures Words(w + rest) == [w] + Words(rest)
  {
    TakeWordOf(w, rest);
    assert (w + rest)[0] == w[0];
    assert (w + rest)[|w|..] == rest;
  }

  lemma WordsSpace(rest: string)
    ensures Words(" " + rest) == Words(rest)
  {
    assert (" " + rest)[1..] == rest;
  }

  lemma WordThenSpace(w: string, rest: string)
    requires IsWord(w)
    ensures Words(w + " " + rest) == [w] + Words(rest)
  {
    WordsCons(w, " " + rest);
    WordsSpace(rest);
    assert w + " " + rest == w + (" " + rest);
  }

  lemma {:induction false} WordsOfJoin(ws: seq<string>)
    requires forall i :: 0 <= i < |ws| ==> IsWord(ws[i])
    ensures Words(Join(ws)) == ws
  {
    if |ws| == 1 {
      WordsCons(ws[0], "");
      assert ws[0] + "" == ws[0];
    } else if ws != [] {
      WordsOfJoin(ws[1..]);
      WordThenSpace(ws[0], Join(ws[1..]));
    }
  }

  lemma {:induction false} SplitOnNone(s: string, c: char)
    requires c !in s
    ensures SplitOn(s, c) == [s]
  {
    if s != "" {
      assert s[0] in s;
      SplitOnNone(s[1..], c);
      assert [s[0]] + s[1..] == s;
    }
  }

  lemma {:induction false} SplitOnOne(a: string, c: char, b: string)
    requires c !in a && c !in b
    ensures SplitOn(a + [c] + b, c) == [a, b]
  {
    var s := a + [c] + b;
    if a == "" {
      assert s[1..] == b;
      SplitOnNone(b, c);
    } else {
      assert a[0] in a;
      SplitOnOne(a[1..], c, b);
      assert s[1..] == a[1..] + [c] + b;
      assert [a[0]] + a[1..] == a;
    }
  }

  function Glue(parts: seq<string>, c: char): string {
    if parts == [] then "" else if |parts| == 1 then parts[0] else parts[0] + [c] + Glue(parts[1..], c)
  }

  /** The parts are what stands between the separators. */
  lemma {:induction false} SplitGlues(s: string, c: char)
    ensures Glue(SplitOn(s, c), c) == s
    ensures forall p :: p in SplitOn(s, c) ==> c !in p
  {
    if s != "" {
      SplitGlues(s[1..], c);
      var rest := SplitOn(s[1..], c);
      var r := SplitOn(s, c);
      if s[0] == c {
        assert r[1..] == rest;
        assert "" + [c] + s[1..] == s;
      } else {
        assert rest[0] in rest && r[1..] == rest[1..];
        assert s == [s[0]] + s[1..];
        forall p | p in r
          ensures c !in p
        {
          assert p == r[0] || p in rest[1..];
        }
      }
    }
  }

  // ---------------------------------------------------------------------
  // Numbers
  // ---------------------------------------------------------------------

  function DigitValue(c: char, radix: nat): Option<nat> {
    var v := if '0' <= c <= '9' then c as int - '0' as int
             else if 'a' <= c <= 'z' then c as int - 'a' as int + 10
             else if 'A' <= c <= 'Z' then c as int - 'A' as int + 10
             else radix;
    if v < radix then Some(v) else None
  }

  function DigitsValue(s: string, radix: nat): Option<nat> {
    if s == "" then Some(0)
    else match (DigitsValue(s[..|s| - 1], radix), DigitValue(s[|s| - 1], radix))
         case (Some(high), Some(low)) => Some(high * radix + low)
         case _ => None
  }

  /** An optional plus sign, at least one digit, and a value of 64 bits. */
  function ParseRadix(s: string, radix: nat): Option<u64> {
    var body := if s != "" && s[0] == '+' then s[1..] else s;
    if body == "" then None
    else match DigitsValue(body, radix)
         case Some(v) => if v < TWO64 then Some(v) else None
         case None => None
  }

  function DigitChar(d: nat): char
    requires d < 16
  {
    if d < 10 then '0' + d as char else 'a' + (d - 10) as char
  }

  function Digits(v: nat, radix: nat): (s: string)
    requires 2 <= radix <= 16
    ensures s != ""
    decreases v
  {
    if v < radix then [DigitChar(v)] else Digits(v / radix, radix) + [DigitChar(v % radix)]
  }

  function Zeros(n: nat): (s: string)
    ensures |s| == n
  {
    if n == 0 then "" else Zeros(n - 1) + "0"
  }

  /** Lower-case hexadecimal, at least eight digits. */
  function Hex8(v: nat): string {
    var s := Digits(v, 16);
    if |s| < 8 then Zeros(8 - |s|) + s else s
  }

  predicate IsDigit(c: char) {
    '0' <= c <= '9' || 'a' <= c <= 'f'
  }

  lemma DigitCharValue(d: nat, radix: nat)
    requires d < radix <= 16
    ensures DigitValue(DigitChar(d), radix) == Some(d) && IsDigit(DigitChar(d))
  {
  }

  lemma DigitsValueSnoc(s: string, c: char, radix: nat, high: nat, low: nat)
    requires DigitsValue(s, radix) == Some(high) && DigitValue(c, radix) == Some(low)
    ensures DigitsValue(s + [c], radix) == Some(high * radix + low)
  {
    hide DigitValue;
    assert (s + [c])[..|s|] == s;
  }

  lemma DivMod(v: nat, radix: nat)
    requires radix >= 2
    ensures (v / radix) * radix + v % radix == v
    ensures v >= radix ==> v / radix < v
  {
  }

  lemma {:induction false} DigitsRoundTrip(v: nat, radix: nat)
    requires 2 <= radix <= 16
    ensures DigitsValue(Digits(v, radix), radix) == Some(v)
    ensures forall i :: 0 <= i < |Digits(v, radix)| ==> IsDigit(Digits(v, radix)[i])
    decreases v
  {
    hide DigitValue, DigitChar, IsDigit, DigitsValue;
    if v < radix {
      DigitCharValue(v, radix);
      NoDigits(radix);
      DigitsValueSnoc("", DigitChar(v), radix, 0, v);
      assert "" + [DigitChar(v)] == [DigitChar(v)];
    } else {
      DivMod(v, radix);
      DigitsRoundTrip(v / radix, radix);
      DigitCharValue(v % radix, radix);
      DigitsValueSnoc(Digits(v / radix, radix), DigitChar(v % radix), radix, v / radix, v % radix);
    }
  }

  lemma NoDigits(radix: nat)
    ensures DigitsValue("", radix) == Some(0)
  {
  }

  lemma {:induction false} LeadingZeros(n: nat, s: string, radix: nat)
    requires 2 <= radix <= 16
    ensures DigitsValue(Zeros(n) + s, radix) == DigitsValue(s, radix)
    decreases n + |s|
  {
    var t := Zeros(n) + s;
    if s != "" {
      LeadingZeros(n, s[..|s| - 1], radix);
      assert t[..|t| - 1] == Zeros(n) + s[..|s| - 1];
    } else if n > 0 {
      assert t == Zeros(n) && t[..|t| - 1] == Zeros(n - 1) + "";
      LeadingZeros(n - 1, "", radix);
      DigitCharValue(0, radix);
    }
  }

  lemma {:induction false} ZerosAreDigits(n: nat)
    ensures forall i :: 0 <= i < n ==> IsDigit(Zeros(n)[i])
  {
    if n > 0 {
      ZerosAreDigits(n - 1);
    }
  }

  /** Digit strings contain no separator and no sign. */
  lemma DigitsAreWord(s: string)
    requires s != "" && forall i :: 0 <= i < |s| ==> IsDigit(s[i])
    ensures IsWord(s) && '-' !in s && s[0] != '+'
  {
  }

  lemma Hex8RoundTrip(v: u64)
    ensures ParseRadix(Hex8(v), 16) == Some(v)
    ensures IsWord(Hex8(v)) && '-' !in Hex8(v)
  {
    hide Digits, Zeros, DigitsValue, IsWord;
    var s := Digits(v, 16);
    DigitsRoundTrip(v, 16);
    if |s| < 8 {
      LeadingZeros(8 - |s|, s, 16);
      ZerosAreDigits(8 - |s|);
    }
    DigitsAreWord(Hex8(v));
  }

  lemma DecimalRoundTrip(v: u64)
    ensures ParseRadix(Digits(v, 10), 10) == Some(v)
    ensures IsWord(Digits(v, 10))
  {
    DigitsRoundTrip(v, 10);
    DigitsAreWord(Digits(v, 10));
  }

  // ---------------------------------------------------------------------
  // One line
  // ---------------------------------------------------------------------

  function Utf8Length(s: string): nat {
    if s == "" then 0
    else
      var n := s[0] as int;
      (if n < 0x80 then 1 else if n < 0x800 then 2 else if n < 0x10000 then 3 else 4) + Utf8Length(s[1..])
  }

  function ParseMapsLine(line: string): Option<MemoryRegion> {
    var parts := Words(line);
    if parts == [] then None
    else
      var addr := SplitOn(parts[0], '-');
      if |addr| != 2 then None
      else match (ParseRadix(addr[0], 16), ParseRadix(addr[1], 16))
           case (Some(start), Some(end)) => ParseRest(start, end, parts)
           case _ => None
  }

  function ParseRest(start: u64, end: u64, parts: seq<string>): Option<MemoryRegion> {
    if |parts| < 5 then None
    else
      var perms := parts[1];
      if Utf8Length(perms) != 4 || |perms| < 4 then None
      else match (ParseRadix(parts[2], 16), ParseRadix(parts[4], 10))
           case (Some(offset), Some(inode)) =>
             Some(MemoryRegion(
                    start, end,
                    perms[0] == 'r', perms[1] == 'w', perms[2] == 'x', perms[3] == 'p',
                    offset, parts[3], inode,
                    if |parts| > 5 then Some(Join(parts[5..])) else None))
           case _ => None
  }

  predicate Halves(s: string, a: string, b: string) {
    s == a + "-" + b && '-' !in a && '-' !in b
  }

  /** The words of a line, in the order of proc_pid_maps(5): start-end, permissions, offset, device, inode, path. */
  ghost predicate Describes(ws: seq<string>, r: MemoryRegion) {
    && |ws| >= 5
    && (exists a, b :: Halves(ws[0], a, b) && ParseRadix(a, 16) == Some(r.start) && ParseRadix(b, 16) == Some(r.end))
    && Utf8Length(ws[1]) == 4 && |ws[1]| == 4
    && (r.readable <==> ws[1][0] == 'r') && (r.writable <==> ws[1][1] == 'w')
    && (r.executable <==> ws[1][2] == 'x') && (r.isPrivate <==> ws[1][3] == 'p')
    && ParseRadix(ws[2], 16) == Some(r.offset)
    && ws[3] == r.device
    && ParseRadix(ws[4], 10) == Some(r.inode)
    && r.pathname == if |ws| > 5 then Some(Join(ws[5..])) else None
  }

  lemma TwoHalves(s: string)
    ensures |SplitOn(s, '-')| == 2 ==> Halves(s, SplitOn(s, '-')[0], SplitOn(s, '-')[1])
    ensures forall a, b :: Halves(s, a, b) ==> SplitOn(s, '-') == [a, b]
  {
    SplitGlues(s, '-');
    var p := SplitOn(s, '-');
    if |p| == 2 {
      assert p[0] in p && p[1] in p;
      assert Glue(p[1..], '-') == p[1];
    }
    forall a, b | Halves(s, a, b)
      ensures p == [a, b]
    {
      SplitOnOne(a, '-', b);
    }
  }

  lemma FourChars(s: string)
    requires Utf8Length(s) == 4 && |s| >= 4
    ensures |s| == 4
  {
    Utf8AtLeast(s);
  }

  lemma {:induction false} Utf8AtLeast(s: string)
    ensures Utf8Length(s) >= |s|
  {
    if s != "" {
      Utf8AtLeast(s[1..]);
    }
  }

  /** A line parses to a region if and only if its words describe it. */
  lemma ParseMeans(line: string, r: MemoryRegion)
    ensures ParseMapsLine(line) == Some(r) <==> Describes(Words(line), r)
  {
    hide SplitOn, ParseRadix, Words, Join, Utf8Length;
    var ws := Words(line);
    if ws != [] {
      TwoHalves(ws[0]);
      if |ws| >= 2 && Utf8Length(ws[1]) == 4 && |ws[1]| >= 4 {
        FourChars(ws[1]);
      }
      if ParseMapsLine(line) == Some(r) {
        var addr := SplitOn(ws[0], '-');
        assert Halves(ws[0], addr[0], addr[1]);
      }
    }
  }

  /** The lines of the file up to the first read error; unparsable lines are dropped. */
  function Parsed(lines: seq<string>): seq<MemoryRegion> {
    if lines == [] then []
    else (match ParseMapsLine(lines[0]) case Some(r) => [r] case None => []) + Parsed(lines[1..])
  }

  lemma {:induction false} ParsedSnoc(lines: seq<string>, line: string)
    ensures Parsed(lines + [line]) ==
            Parsed(lines) + (match ParseMapsLine(line) case Some(r) => [r] case None => [])
  {
    hide ParseMapsLine;
    if lines == [] {
      assert lines + [line] == [line] && [line][1..] == [];
    } else {
      ParsedSnoc(lines[1..], line);
      assert (lines + [line])[1..] == lines[1..] + [line];
    }
  }

  /** `None` among the lines is an I/O error, which ends the parse. */
  method ParseMapsFile(lines: seq<Option<string>>) returns (regions: Option<seq<MemoryRegion>>)
    ensures regions.None? <==> None in lines
    ensures regions.Some? ==>
              regions.value == Parsed(seq(|lines|, i requires 0 <= i < |lines| && lines[i].Some? => lines[i].value))
  {
    hide ParseMapsLine;
    var found := [];
    ghost var text: seq<string> := [];
    for i := 0 to |lines|
      invariant |text| == i && forall j :: 0 <= j < i ==> lines[j] == Some(text[j])
      invariant found == Parsed(text)
    {
      match lines[i] {
        case None => return None;
        case Some(line) =>
          ParsedSnoc(text, line);
          match ParseMapsLine(line) {
            case Some(region) => found := found + [region];
            case None =>
          }
          text := text + [line];
      }
    }
    assert text == seq(|lines|, i requires 0 <= i < |lines| && lines[i].Some? => lines[i].value);
    return Some(found);
  }

  // ---------------------------------------------------------------------
  // Printing, and the round trips
  // ---------------------------------------------------------------------

  function Spaces(n: nat): string {
    if n == 0 then "" else " " + Spaces(n - 1)
  }

  function Perms(r: MemoryRegion): string {
    [if r.readable then 'r' else '-', if r.writable then 'w' else '-',
     if r.executable then 'x' else '-', if r.isPrivate then 'p' else 's']
  }

  /** A line in the form of proc_pid_maps(5); `gap` is the extra padding before the path. */
  function Print(r: MemoryRegion, gap: nat): string {
    Hex8(r.start) + "-" + Hex8(r.end) + " " + (Perms(r) + " " + (Hex8(r.offset) + " " + (r.device + " " +
      (Digits(r.inode, 10) + match r.pathname case Some(p) => " " + (Spaces(gap) + p) case None => ""))))
  }

  /** The device is one word, and the path is made of words separated by single spaces. */
  predicate Printable(r: MemoryRegion) {
    && IsWord(r.device)
    && (r.pathname.Some? ==> Words(r.pathname.value) != [] && Join(Words(r.pathname.value)) == r.pathname.value)
  }

  lemma PermsWord(r: MemoryRegion)
    ensures IsWord(Perms(r)) && Utf8Length(Perms(r)) == 4
  {
    var p := Perms(r);
    assert p[1..][1..] == p[2..] && p[1..][1..][1..] == p[3..] && p[1..][1..][1..][1..] == "";
    assert Utf8Length(p[3..]) == 1 && Utf8Length(p[2..]) == 2 && Utf8Length(p[1..]) == 3;
  }

  lemma {:induction false} WordsSpaces(n: nat, s: string)
    ensures Words(Spaces(n) + s) == Words(s)
  {
    if n == 0 {
      assert "" + s == s;
    } else {
      WordsSpaces(n - 1, s);
      assert Spaces(n) + s == " " + (Spaces(n - 1) + s);
      WordsSpace(Spaces(n - 1) + s);
    }
  }

  /** The fields of a printed line, and the words of the path after them. */
  lemma PrintedWords(r: MemoryRegion, gap: nat)
    requires IsWord(r.device)
    ensures Words(Print(r, gap)) ==
            [Hex8(r.start) + "-" + Hex8(r.end), Perms(r), Hex8(r.offset), r.device, Digits(r.inode, 10)]
            + (match r.pathname case Some(p) => Words(p) case None => [])
  {
    hide Words, Digits, Hex8, Perms, IsSpace, Spaces;
    var tail := match r.pathname case Some(p) => " " + (Spaces(gap) + p) case None => "";
    var inode := Digits(r.inode, 10);
    Hex8RoundTrip(r.start);
    Hex8RoundTrip(r.end);
    Hex8RoundTrip(r.offset);
    DecimalRoundTrip(r.inode);
    PermsWord(r);
    TailWords(r, gap);
    var addr := Hex8(r.start) + "-" + Hex8(r.end);
    AddressWord(Hex8(r.start), Hex8(r.end));
    WordThenSpace(r.device, inode + tail);
    WordThenSpace(Hex8(r.offset), r.device + " " + (inode + tail));
    WordThenSpace(Perms(r), Hex8(r.offset) + " " + (r.device + " " + (inode + tail)));
    WordThenSpace(addr, Perms(r) + " " + (Hex8(r.offset) + " " + (r.device + " " + (inode + tail))));
  }

  lemma AddressWord(a: string, b: string)
    requires IsWord(a) && IsWord(b)
    ensures IsWord(a + "-" + b)
  {
  }

  lemma TailWords(r: MemoryRegion, gap: nat)
    ensures Words(Digits(r.inode, 10) + match r.pathname case Some(p) => " " + (Spaces(gap) + p) case None => "") ==
            [Digits(r.inode, 10)] + (match r.pathname case Some(p) => Words(p) case None => [])
  {
    hide Words, Digits, Spaces;
    DecimalRoundTrip(r.inode);
    match r.pathname
    case Some(p) =>
      WordsCons(Digits(r.inode, 10), " " + (Spaces(gap) + p));
      WordsSpace(Spaces(gap) + p);
      WordsSpaces(gap, p);
    case None =>
      WordsCons(Digits(r.inode, 10), "");
      EmptyWords();
  }

  lemma EmptyWords()
    ensures Words("") == []
  {
  }

  /** Every parsed region is printable. */
  lemma ParsedIsPrintable(line: string)
    requires ParseMapsLine(line).Some?
    ensures Printable(ParseMapsLine(line).value)
  {
    hide SplitOn, ParseRadix, Utf8Length, IsSpace;
    var parts := Words(line);
    var r := ParseMapsLine(line).value;
    assert IsWord(parts[3]);
    if |parts| > 5 {
      assert forall i :: 0 <= i < |parts[5..]| ==> parts[5..][i] == parts[i + 5];
      WordsOfJoin(parts[5..]);
    }
  }

  lemma PrintableRoundTrip(r: MemoryRegion, gap: nat)
    requires Printable(r)
    ensures ParseMapsLine(Print(r, gap)) == Some(r)
  {
    hide Words, Digits, Hex8, IsSpace, Spaces, SplitOn, ParseRadix, Utf8Length, Print, Join;
    PrintedWords(r, gap);
    Hex8RoundTrip(r.start);
    Hex8RoundTrip(r.end);
    Hex8RoundTrip(r.offset);
    DecimalRoundTrip(r.inode);
    PermsWord(r);
    SplitOnOne(Hex8(r.start), '-', Hex8(r.end));
    var parts := Words(Print(r, gap));
    match r.pathname
    case Some(p) => assert parts[5..] == Words(p);
    case None =>
  }

  /** Parsing undoes printing exactly for printable regions, for all addresses, offsets and inodes. */
  lemma ParseUndoesPrint(r: MemoryRegion, gap: nat)
    ensures ParseMapsLine(Print(r, gap)) == Some(r) <==> Printable(r)
  {
    hide ParseMapsLine, Print, Printable;
    if Printable(r) {
      PrintableRoundTrip(r, gap);
    }
    if ParseMapsLine(Print(r, gap)) == Some(r) {
      ParsedIsPrintable(Print(r, gap));
    }
  }

  /** Any line that parses is equivalent to the printed form of its region. */
  lemma ParsePrintParse(line: string, gap: nat)
    requires ParseMapsLine(line).Some?
    ensures ParseMapsLine(Print(ParseMapsLine(line).value, gap)) == ParseMapsLine(line)
  {
    hide ParseMapsLine, Print, Printable;
    ParsedIsPrintable(line);
    PrintableRoundTrip(ParseMapsLine(line).value, gap);
  }

  /** The parser does not compare the two addresses: such a region has no size. */
  lemma BackwardsRegionParses(r: MemoryRegion, gap: nat)
    requires Printable(r) && r.end < r.start
    ensures ParseMapsLine(Print(r, gap)).Some? && ParseMapsLine(Print(r, gap)).value.Size() == None
  {
    hide ParseMapsLine, Print, Printable;
    PrintableRoundTrip(r, gap);
  }
}
