/** The 128-bit session id and its dotted decimal text form. */
module SessionIds {
  import opened Bytes

  datatype SessionId = SessionId(w1: uint32, w2: uint32, w3: uint32, w4: uint32)

  /** The size of each buffer that a word is printed into, terminator included. */
  const BUFFER: nat := 11

  const ULONG_MAX: nat := 0xFFFF_FFFF_FFFF_FFFF

  // Printing

  function Digit(d: nat): char
    requires d < 10
  {
    "0123456789"[d]
  }

  function Decimal(n: nat): string {
    if n < 10 then [Digit(n)] else Decimal(n / 10) + [Digit(n % 10)]
  }

  /** snprintf with format "%lu": what does not fit in front of the terminator is cut off. */
  function PrintWord(w: uint32): string {
    var text := Decimal(w);
    if |text| < BUFFER then text else text[..BUFFER - 1]
  }

  function ToString(id: SessionId): string {
    PrintWord(id.w1) + "." + PrintWord(id.w2) + "." + PrintWord(id.w3) + "." + PrintWord(id.w4)
  }

  // Parsing

  /** The index of the first dot at or after `from`; the length of the text when there is none. */
  function FindDot(s: string, from: nat): (i: nat)
    requires from <= |s|
    ensures from <= i <= |s|
    ensures forall k :: from <= k < i ==> s[k] != '.'
    ensures i < |s| ==> s[i] == '.'
    decreases |s| - from
  {
    if from == |s| || s[from] == '.' then from else FindDot(s, from + 1)
  }

  predicate IsSpace(c: char) {
    c == ' ' || '\t' <= c <= '\r'
  }

  function DigitValue(c: char): nat {
    if '0' <= c <= '9' then c as int - '0' as int
    else if 'a' <= c <= 'f' then c as int - 'a' as int + 10
    else if 'A' <= c <= 'F' then c as int - 'A' as int + 10
    else 99
  }

  predicate AllDigits(s: string, radix: nat) {
    forall i :: 0 <= i < |s| ==> DigitValue(s[i]) < radix
  }

  function Number(s: string, radix: nat): nat {
    if s == "" then 0 else Number(s[..|s| - 1], radix) * radix + DigitValue(s[|s| - 1])
  }

  function SkipSpaces(s: string): string {
    if s != "" && IsSpace(s[0]) then SkipSpaces(s[1..]) else s
  }

  /** The digits after an optional sign, with the base that a base-0 strtoul picks from their prefix. */
  function Radix(s: string): (nat, string) {
    if |s| > 2 && s[0] == '0' && (s[1] == 'x' || s[1] == 'X') && DigitValue(s[2]) < 16 then (16, s[2..])
    else if s != "" && s[0] == '0' then (8, s)
    else (10, s)
  }

  /** strtoul in base 0 on one part, followed by the test that the part was consumed to its end. */
  function ParsePart(part: string): Option<nat> {
    var trimmed := SkipSpaces(part);
    var signed := trimmed != "" && (trimmed[0] == '+' || trimmed[0] == '-');
    var (radix, digits) := Radix(if signed then trimmed[1..] else trimmed);
    if digits == "" || !AllDigits(digits, radix) then None
    else
      var n := Number(digits, radix);
      if n > ULONG_MAX then Some(ULONG_MAX)
      else if signed && trimmed[0] == '-' then Some((ULONG_MAX + 1 - n) % (ULONG_MAX + 1))
      else Some(n)
  }

  /** What the string constructor makes of s[from..] after it has read the given parts; None is its request_error. */
  function ParseFrom(read: string -> Option<nat>, s: string, from: nat, parts: seq<nat>): Option<SessionId>
    requires from <= |s|
    decreases |s| - from
  {
    var dot := FindDot(s, from);
    match read(s[from..dot])
    case None => None
    case Some(n) =>
      if dot < |s| then ParseFrom(read, s, dot + 1, parts + [n])
      else if |parts| == 3 then Some(FromWords(parts + [n]))
      else None
  }

  function Parse(s: string): Option<SessionId> {
    ParseFrom(ParsePart, s, 0, [])
  }

  function FromWords(ws: seq<nat>): SessionId
    requires |ws| == 4
  {
    SessionId(ws[0] % TWO_32, ws[1] % TWO_32, ws[2] % TWO_32, ws[3] % TWO_32)
  }

  /** The loop of the string constructor, for any way to read one part. */
  method ReadParts(read: string -> Option<nat>, s: string) returns (r: Option<SessionId>)
    ensures r == ParseFrom(read, s, 0, [])
  {
    var parts: seq<nat> := [];
    var init := 0;
    var found := FindDot(s, 0);
    while found != |s|
      invariant init <= found <= |s| && found == FindDot(s, init)
      invariant ParseFrom(read, s, 0, []) == ParseFrom(read, s, init, parts)
    {
      var n := read(s[init..found]);
      if n == None {
        return None;
      }
      parts := parts + [n.value];
      init := found + 1;
      found := FindDot(s, init);
    }
    var n := read(s[init..found]);
    if n == None || |parts| != 3 {
      return None;
    }
    return Some(FromWords(parts + [n.value]));
  }

  /** The string constructor. */
  method FromString(s: string) returns (r: Option<SessionId>)
    ensures r == Parse(s)
  {
    r := ReadParts(ParsePart, s);
  }

  // The round trip

  function Power10(k: nat): nat {
    if k == 0 then 1 else 10 * Power10(k - 1)
  }

  /** A word has at most ten digits, so its buffer never cuts it. */
  lemma {:induction false} DecimalLength(n: nat, k: nat)
    requires k >= 1 && n < Power10(k)
    ensures |Decimal(n)| <= k
  {
    if n >= 10 {
      DecimalLength(n / 10, k - 1);
    }
  }

  lemma PrintedWordIsWhole(w: uint32)
    ensures PrintWord(w) == Decimal(w) && |PrintWord(w)| < BUFFER
  {
    assert Power10(10) == 10_000_000_000 by {
      assert Power10(5) == 100_000;
      assert Power10(10) == 100_000 * Power10(5);
    }
    DecimalLength(w, 10);
  }

  lemma {:induction false} DecimalReadsBack(n: nat)
    ensures var s := Decimal(n);
            s != "" && AllDigits(s, 10) && Number(s, 10) == n && '.' !in s && (s[0] == '0' <==> n == 0)
            && '0' <= s[0] <= '9'
  {
    if n >= 10 {
      DecimalReadsBack(n / 10);
      assert Decimal(n)[..|Decimal(n)| - 1] == Decimal(n / 10);
    } else {
      assert Number(Decimal(n), 10) == Number("", 10) * 10 + DigitValue(Digit(n));
    }
  }

  /** Base 0 reads a printed word as decimal; the word zero is read in base eight. */
  lemma ParsePartOfDecimal(n: nat)
    requires n <= ULONG_MAX
    ensures ParsePart(Decimal(n)) == Some(n)
  {
    DecimalReadsBack(n);
    var s := Decimal(n);
    assert SkipSpaces(s) == s;
    if n == 0 {
      assert s == "0" && Number(s, 8) == Number("", 8) * 8 + DigitValue('0');
    }
  }

  lemma ReadPart(read: string -> Option<nat>, part: string, n: nat, rest: string, s: string, from: nat, parts: seq<nat>)
    requires from <= |s| && s[from..] == part + "." + rest && '.' !in part && read(part) == Some(n)
    ensures from + |part| + 1 <= |s| && s[from + |part| + 1..] == rest
    ensures ParseFrom(read, s, from, parts) == ParseFrom(read, s, from + |part| + 1, parts + [n])
  {
    var dot := from + |part|;
    assert s[from..][|part|] == '.';
    assert forall k :: from <= k < dot ==> s[k] == s[from..][k - from] == part[k - from];
    assert FindDot(s, from) == dot && s[from..dot] == part;
    assert s[dot + 1..] == s[from..][|part| + 1..] == rest;
  }

  lemma ReadLastPart(read: string -> Option<nat>, part: string, n: nat, s: string, from: nat, parts: seq<nat>)
    requires from <= |s| && s[from..] == part && '.' !in part && read(part) == Some(n) && |parts| == 3
    ensures ParseFrom(read, s, from, parts) == Some(FromWords(parts + [n]))
  {
    assert forall k :: from <= k < |s| ==> s[k] == s[from..][k - from] == part[k - from];
    assert FindDot(s, from) == |s| && s[from..|s|] == part;
  }

  lemma ReadFour(read: string -> Option<nat>, a: string, b: string, c: string, d: string, ns: seq<nat>, s: string)
    requires s == a + "." + b + "." + c + "." + d && |ns| == 4
    requires '.' !in a && '.' !in b && '.' !in c && '.' !in d
    requires read(a) == Some(ns[0]) && read(b) == Some(ns[1]) && read(c) == Some(ns[2]) && read(d) == Some(ns[3])
    ensures ParseFrom(read, s, 0, []) == Some(FromWords(ns))
  {
    assert s[0..] == a + "." + (b + "." + (c + "." + d));
    TakeFour(ns);
    ReadPart(read, a, ns[0], b + "." + (c + "." + d), s, 0, ns[..0]);
    ReadPart(read, b, ns[1], c + "." + d, s, |a| + 1, ns[..1]);
    ReadPart(read, c, ns[2], d, s, |a| + |b| + 2, ns[..2]);
    ReadLastPart(read, d, ns[3], s, |a| + |b| + |c| + 3, ns[..3]);
  }

  lemma TakeFour(ns: seq<nat>)
    requires |ns| == 4
    ensures ns[..0] == [] && ns[..0] + [ns[0]] == ns[..1] && ns[..1] + [ns[1]] == ns[..2]
    ensures ns[..2] + [ns[2]] == ns[..3] && ns[..3] + [ns[3]] == ns
  {
  }

  lemma WordReadsBack(w: uint32)
    ensures '.' !in PrintWord(w) && ParsePart(PrintWord(w)) == Some(w as nat)
  {
    PrintedWordIsWhole(w);
    DecimalReadsBack(w);
    ParsePartOfDecimal(w);
  }

  lemma FromWordsOfId(id: SessionId)
    ensures FromWords([id.w1, id.w2, id.w3, id.w4]) == id
  {
  }

  lemma PrintedWordsReadBack(read: string -> Option<nat>, id: SessionId)
    requires forall w: uint32 :: '.' !in PrintWord(w) && read(PrintWord(w)) == Some(w as nat)
    ensures ParseFrom(read, ToString(id), 0, []) == Some(id)
  {
    FromWordsOfId(id);
    ReadFour(read, PrintWord(id.w1), PrintWord(id.w2), PrintWord(id.w3), PrintWord(id.w4),
             [id.w1, id.w2, id.w3, id.w4], ToString(id));
  }

  /** Every one of the 2^128 ids survives printing and parsing. */
  lemma RoundTrip(id: SessionId)
    ensures Parse(ToString(id)) == Some(id)
  {
    forall w: uint32
      ensures '.' !in PrintWord(w) && ParsePart(PrintWord(w)) == Some(w as nat)
    {
      WordReadsBack(w);
    }
    PrintedWordsReadBack(ParsePart, id);
  }

  lemma OneMoreDigit(n: nat, d: nat)
    requires n > 0 && d < 10
    ensures Decimal(10 * n + d) == Decimal(n) + [Digit(d)]
  {
    assert (10 * n + d) / 10 == n && (10 * n + d) % 10 == d;
  }

  /** Words are written with the usual ten digits, the highest first. */
  lemma AllDigitsInOrder()
    ensures Decimal(1234567890) == "1234567890"
  {
    OneMoreDigit(1, 2);
    OneMoreDigit(12, 3);
    OneMoreDigit(123, 4);
    OneMoreDigit(1234, 5);
    assert Decimal(12345) == "12345";
    OneMoreDigit(12345, 6);
    OneMoreDigit(123456, 7);
    OneMoreDigit(1234567, 8);
    OneMoreDigit(12345678, 9);
    OneMoreDigit(123456789, 0);
  }

  /** The text form: the four words in decimal, none of them cut off, with dots between them. */
  lemma TextIsDottedDecimal(id: SessionId)
    ensures ToString(id) == Decimal(id.w1) + "." + Decimal(id.w2) + "." + Decimal(id.w3) + "." + Decimal(id.w4)
  {
    PrintedWordIsWhole(id.w1);
    PrintedWordIsWhole(id.w2);
    PrintedWordIsWhole(id.w3);
    PrintedWordIsWhole(id.w4);
  }
}
