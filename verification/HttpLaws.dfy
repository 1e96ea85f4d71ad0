// What the header parser makes of spelled-out text: blanks, signs, capitals and small letters.
module HttpLaws {
  import opened Common
  import opened HttpHeader
  import opened HttpReply
  import opened Samples

  // ---- Capitals and small letters ----

  // c is the capital of the small letter d, or the small letter of the capital d.
  predicate OtherCase(c: char, d: char) {
    || ('A' <= c <= 'Z' && d as int == c as int + 32)
    || ('a' <= c <= 'z' && d as int == c as int - 32)
  }

  // s is t with the case of any of its letters changed.
  predicate AnyCase(s: string, t: string) {
    |s| == |t| && forall i :: 0 <= i < |s| ==> s[i] == t[i] || OtherCase(s[i], t[i])
  }

  lemma SameTextIff(s: string, t: string)
    ensures SameText(s, t) <==> AnyCase(s, t)
  {
    hide Lower;
    forall c, d ensures Lower(c) == Lower(d) <==> c == d || OtherCase(c, d) { LowerIff(c, d); }
  }

  lemma LowerIff(c: char, d: char)
    ensures Lower(c) == Lower(d) <==> c == d || OtherCase(c, d)
  {
  }

  // A reply has no length exactly if no entry has the name in any spelling.
  lemma {:induction false} NoLengthIff(es: seq<Entry>)
    ensures ContentLength(es).None? <==> forall i :: 0 <= i < |es| ==> !AnyCase(es[i].name, "Content-Length")
  {
    hide SameText, AnyCase, Atoi;
    if es != [] {
      SameTextIff(es[0].name, "Content-Length");
      NoLengthIff(es[1..]);
      if forall i :: 0 <= i < |es| ==> !AnyCase(es[i].name, "Content-Length") {
        forall i | 0 <= i < |es[1..]| ensures !AnyCase(es[1..][i].name, "Content-Length") {
          assert es[1..][i] == es[i + 1];
        }
      } else if !AnyCase(es[0].name, "Content-Length") {
        var i :| 0 <= i < |es| && AnyCase(es[i].name, "Content-Length");
        assert es[1..][i - 1] == es[i];
      }
    }
  }

  // ---- Numbers ----

  // What atoi skips: blank, tab, LF, VT, FF, CR.
  predicate Skipped(s: string) {
    forall c :: c in s ==> c == ' ' || 9 <= c as int <= 13
  }

  // A number in front of rest, which is no longer part of it, with blanks and a sign before it.
  predicate Numeral(value: string, blanks: string, sign: string, n: nat, rest: string) {
    && value == blanks + sign + Decimal(n) + rest && Skipped(blanks) && sign in {"", "+", "-"}
    && (rest != "" ==> !('0' <= rest[0] <= '9'))
  }

  function Signed(sign: string, n: nat): int {
    if sign == "-" then 0 - n else n
  }

  lemma {:induction false} BlanksSkipped(buf: string, p: nat, blanks: string, stop: int)
    requires Holds(buf, p, blanks) && Skipped(blanks) && p + |blanks| <= stop
    ensures Atoi(buf, p, stop) == Atoi(buf, p + |blanks|, stop)
    decreases |blanks|
  {
    hide Atoi, Holds;
    if blanks != "" {
      HoldsAt(buf, p, blanks, 0);
      assert blanks[0] in blanks && forall c :: c in blanks[1..] ==> c in blanks;
      BlankSkipped(buf, p, stop);
      assert blanks == blanks[..1] + blanks[1..];
      HoldsSplit(buf, p, blanks[..1], blanks[1..]);
      BlanksSkipped(buf, p + 1, blanks[1..], stop);
    }
  }

  lemma BlankSkipped(buf: string, p: int, stop: int)
    requires p < stop && (At(buf, p) == ' ' || 9 <= At(buf, p) as int <= 13)
    ensures Atoi(buf, p, stop) == Atoi(buf, p + 1, stop)
  {
  }

  lemma NumeralParts(value: string, blanks: string, sign: string, n: nat, rest: string)
    requires Numeral(value, blanks, sign, n, rest)
    ensures var p := |blanks| + |sign|;
      && Holds(value, 0, blanks) && Holds(value, |blanks|, sign) && Holds(value, p, Decimal(n))
      && Holds(value, p + |Decimal(n)|, rest) && |value| == p + |Decimal(n)| + |rest|
  {
    hide Decimal, Holds, Skipped;
    var d := Decimal(n);
    Whole(value);
    assert value == blanks + (sign + (d + rest));
    HoldsSplit(value, 0, blanks, sign + (d + rest));
    HoldsSplit(value, |blanks|, sign, d + rest);
    HoldsSplit(value, |blanks| + |sign|, d, rest);
  }

  lemma AtoiOfNumeral(value: string, blanks: string, sign: string, n: nat, rest: string)
    requires Numeral(value, blanks, sign, n, rest)
    ensures Atoi(value, 0, |value|) == Signed(sign, n)
  {
    hide Atoi, Decimal, Digits, Holds, Skipped;
    NumeralParts(value, blanks, sign, n, rest);
    var p := |blanks| + |sign|;
    BlanksSkipped(value, 0, blanks, |value|);
    SignRead(value, |blanks|, sign, n);
    if rest != "" {
      HoldsAt(value, p + |Decimal(n)|, rest, 0);
    }
    DigitsRead(value, p, n);
  }

  lemma Whole(s: string)
    ensures Holds(s, 0, s)
  {
  }

  lemma SignRead(value: string, p: nat, sign: string, n: nat)
    requires Holds(value, p, sign) && sign in {"", "+", "-"} && Holds(value, p + |sign|, Decimal(n))
    ensures Atoi(value, p, |value|) == Signed(sign, Digits(value, p + |sign|, |value|, 0))
  {
    hide Digits;
    HoldsAt(value, p + |sign|, Decimal(n), 0);
    assert Decimal(n)[0] in Decimal(n);
    if sign != "" {
      HoldsAt(value, p, sign, 0);
    }
  }

  lemma DigitsRead(value: string, p: nat, n: nat)
    requires Holds(value, p, Decimal(n))
    requires p + |Decimal(n)| == |value| || !IsDigit(At(value, p + |Decimal(n)|))
    ensures Digits(value, p, |value|, 0) == n
  {
    DigitsOfDecimal(value, p, |value|, n);
  }

  // The first entry of that name, in any spelling, says the length: its number with its sign.
  lemma {:induction false} LengthRead(es: seq<Entry>, k: nat, blanks: string, sign: string, n: nat, rest: string)
    requires k < |es| && AnyCase(es[k].name, "Content-Length") && Numeral(es[k].value, blanks, sign, n, rest)
    requires forall j :: 0 <= j < k ==> !AnyCase(es[j].name, "Content-Length")
    ensures ContentLength(es) == Some(Signed(sign, n))
  {
    hide SameText, AnyCase, Atoi, Numeral;
    SameTextIff(es[0].name, "Content-Length");
    if k > 0 {
      assert es[1..][k - 1] == es[k];
      LengthRead(es[1..], k - 1, blanks, sign, n, rest);
    } else {
      AtoiOfNumeral(es[0].value, blanks, sign, n, rest);
    }
  }

  // The same for a reply that was printed, received with any body behind it and parsed.
  lemma LengthOfPrinted(h: Head, stat: string, cache: string, body: string, k: nat, blanks: string, sign: string, n: nat,
      rest: string)
    requires Printable(h, stat, cache) && k < |h.entries|
    requires AnyCase(h.entries[k].name, "Content-Length") && Numeral(h.entries[k].value, blanks, sign, n, rest)
    requires forall j :: 0 <= j < k ==> !AnyCase(h.entries[j].name, "Content-Length")
    ensures var r := Parsed(Printed(h, stat, cache) + body); r.Some? && r.value.length == Some(Signed(sign, n))
  {
    hide Printable, Printed, Parsed, AnyCase, Numeral, ContentLength;
    ParseOfPrinted(h, stat, cache, body);
    LengthRead(Marked(h, stat, cache), k, blanks, sign, n, rest);
  }

  lemma NotTaken(name: string, value: string)
    requires |name| != 14 || name[7] != '-'
    ensures ContentLength([Entry(name, value)]) == None
  {
    hide ContentLength;
    assert "Content-Length"[7] == '-';
    NoLengthIff([Entry(name, value)]);
  }

  lemma SmallLetters()
    ensures ContentLength([Entry("content-length", "5")]) == Some(5)
  {
    hide ContentLength;
    LengthRead([Entry("content-length", "5")], 0, "", "", 5, "");
  }

  lemma Capitals()
    ensures ContentLength([Entry("CONTENT-LENGTH", "5")]) == Some(5)
  {
    hide ContentLength;
    LengthRead([Entry("CONTENT-LENGTH", "5")], 0, "", "", 5, "");
  }

  lemma MixedLetters()
    ensures ContentLength([Entry("CoNtEnT-lEnGtH", "\t -5;")]) == Some(-5)
  {
    hide ContentLength;
    LengthRead([Entry("CoNtEnT-lEnGtH", "\t -5;")], 0, "\t ", "-", 5, ";");
  }

  lemma OtherNames()
    ensures ContentLength([Entry("Content_Length", "5")]) == None
    ensures ContentLength([Entry("Content-Lengths", "5")]) == None
  {
    NotTaken("Content_Length", "5");
    NotTaken("Content-Lengths", "5");
  }

  // ---- The protocol's name ----

  // Whatever is parsed begins with HTTP/, in any spelling.
  lemma PrefixIff(buf: string)
    ensures HasPrefix(buf) <==> |buf| >= 5 && AnyCase(buf[..5], "HTTP/")
    ensures Parsed(buf).Some? ==> |buf| >= 5 && AnyCase(buf[..5], "HTTP/")
  {
    hide Parsed;
    if Parsed(buf).Some? {
      ParsedPrefix(buf);
    }
    if HasPrefix(buf) {
      PrefixIsLong(buf);
    }
  }

  lemma PrefixIsLong(buf: string)
    requires HasPrefix(buf)
    ensures |buf| >= 5
  {
    hide Lower;
    assert At(buf, 4) == '/';
  }

  lemma ParsedPrefix(buf: string)
    requires Parsed(buf).Some?
    ensures HasPrefix(buf)
  {
    hide HasPrefix;
  }

  // ---- What is printed ----

  lemma StatusText(es: seq<Entry>)
    ensures StatusLine(Head(1, 1, 200, "OK", es)) == "HTTP/1.1 200 OK"
  {
    assert Decimal(1) == "1" && Decimal(2) == "2" && Decimal(20) == "20" && Decimal(200) == "200";
  }

  lemma ViaText()
    ensures Text(Entry("Via", ViaValue(STAT, CACHE))) == "Via: TCP_MISS with - by smartc"
  {
    hide ViaValue;
    ViaValueText();
  }

  lemma ViaValueText()
    ensures ViaValue(STAT, CACHE) == "TCP_MISS with - by smartc"
  {
  }

  lemma LengthText()
    ensures Text(Entry("Content-Length", Decimal(1024))) == "Content-Length: 1024"
  {
    assert Decimal(1) == "1" && Decimal(10) == "10" && Decimal(102) == "102" && Decimal(1024) == "1024";
  }

  // A head without entries and one with a length, to the last byte.
  lemma SampleText()
    ensures Printed(Sample(None), STAT, CACHE) == "HTTP/1.1 200 OK" + "\r\n" + "Via: TCP_MISS with - by smartc" + "\r\n"
        + "\r\n"
  {
    hide Text, StatusLine, ViaValue, Decimal;
    StatusText([]);
    ViaText();
    var via := Entry("Via", ViaValue(STAT, CACHE));
    assert Marked(Sample(None), STAT, CACHE) == [via];
    BlockOfOne(via);
  }

  lemma SampleWithLength()
    ensures Printed(Sample(Some(1024)), STAT, CACHE) == "HTTP/1.1 200 OK" + "\r\n" + "Content-Length: 1024" + "\r\n"
        + "Via: TCP_MISS with - by smartc" + "\r\n" + "\r\n"
  {
    hide Text, StatusLine, ViaValue, Decimal;
    var length, via := Entry("Content-Length", Decimal(1024)), Entry("Via", ViaValue(STAT, CACHE));
    StatusText([length]);
    ViaText();
    LengthText();
    assert Marked(Sample(Some(1024)), STAT, CACHE) == [length, via] && [length, via][1..] == [via];
    BlockOfOne(via);
  }

  lemma BlockOfOne(e: Entry)
    ensures Block([e]) == Text(e) + "\r\n"
  {
    assert [e][1..] == [];
  }

  // ---- Blanks around names and values ----

  // Blank, tab or CR.
  predicate Gap(s: string) {
    forall c :: c in s ==> c in {' ', '\t', '\r'}
  }

  predicate Solid(c: char) {
    c !in {' ', '\t', '\r', '\n', '\0'}
  }

  // A name has neither blanks nor a colon; a value neither begins nor ends with a blank.
  predicate Spelled(e: Entry) {
    && e.name != "" && (forall c :: c in e.name ==> Solid(c) && c != ':')
    && e.value != "" && Solid(e.value[0]) && Solid(e.value[|e.value| - 1])
    && forall c :: c in e.value ==> c !in {'\r', '\n', '\0'}
  }

  function SpacedLine(before: string, e: Entry, gap: string, after: string): string {
    before + e.name + ":" + gap + e.value + after
  }

  // Blanks in front of the name, behind the colon, where there must be one, and behind the value are cut off.
  lemma BlanksAreCut(buf: string, str: nat, before: string, e: Entry, gap: string, after: string)
    requires Spelled(e) && Gap(before) && Gap(gap) && gap != "" && Gap(after)
    requires Holds(buf, str, SpacedLine(before, e, gap, after) + "\r\n")
    ensures EntryAt(buf, str, |SpacedLine(before, e, gap, after)|) == Some(e)
  {
    hide Holds, Gap, Spelled, At, IsSpace, FirstSolid, LastSolid, MemChr, Strndup, Solid;
    var n := str + |before|;
    var middle := n + |e.name|;
    var v := middle + 1 + |gap|;
    var last := v + |e.value| - 1;
    var size := |SpacedLine(before, e, gap, after)|;
    LineParts(buf, str, before, e, gap, after);
    GapAt(buf, str, before);
    GapAt(buf, middle + 1, gap);
    GapAt(buf, last + 1, after);
    NameAt(buf, n, e);
    ValueAt(buf, v, e);
    HoldsAt(buf, middle, ":", 0);
    SolidIsNoSpace(':');
    LineEndAt(buf, last + 1 + |after|);
    MemChrIs(buf, str, ':', size, middle);
    FirstSolidIs(buf, str, n);
    LastSolidIs(buf, middle + 1, middle);
    FirstSolidIs(buf, middle + 1, v);
    LastSolidIs(buf, str + size + 1, last);
    StrndupHolds(buf, n, e.name);
    StrndupHolds(buf, v, e.value);
  }

  lemma LineParts(buf: string, str: nat, before: string, e: Entry, gap: string, after: string)
    requires Holds(buf, str, SpacedLine(before, e, gap, after) + "\r\n")
    ensures var n := str + |before|; var v := n + |e.name| + 1 + |gap|;
      && Holds(buf, str, before) && Holds(buf, n, e.name) && Holds(buf, n + |e.name|, ":") && Holds(buf, n + |e.name| + 1, gap)
      && Holds(buf, v, e.value) && Holds(buf, v + |e.value|, after) && Holds(buf, v + |e.value| + |after|, "\r\n")
  {
    hide Holds;
    var n := str + |before|;
    var v := n + |e.name| + 1 + |gap|;
    assert SpacedLine(before, e, gap, after) + "\r\n"
      == before + (e.name + (":" + (gap + (e.value + (after + "\r\n")))));
    HoldsSplit(buf, str, before, e.name + (":" + (gap + (e.value + (after + "\r\n")))));
    HoldsSplit(buf, n, e.name, ":" + (gap + (e.value + (after + "\r\n"))));
    HoldsSplit(buf, n + |e.name|, ":", gap + (e.value + (after + "\r\n")));
    HoldsSplit(buf, n + |e.name| + 1, gap, e.value + (after + "\r\n"));
    HoldsSplit(buf, v, e.value, after + "\r\n");
    HoldsSplit(buf, v + |e.value|, after, "\r\n");
  }

  lemma SolidIsNoSpace(c: char)
    ensures Solid(c) ==> !IsSpace(c) && c != '\0'
    ensures c in {' ', '\t', '\r', '\n'} ==> IsSpace(c) && c != ':'
    ensures Solid(':')
  {
  }

  lemma GapAt(buf: string, p: nat, gap: string)
    requires Holds(buf, p, gap) && Gap(gap)
    ensures forall i :: p <= i < p + |gap| ==> IsSpace(At(buf, i)) && At(buf, i) != ':'
  {
    hide Holds, At, IsSpace;
    forall i | p <= i < p + |gap| ensures IsSpace(At(buf, i)) && At(buf, i) != ':' {
      HoldsAt(buf, p, gap, i - p);
      assert gap[i - p] in gap;
      SolidIsNoSpace(At(buf, i));
    }
  }

  lemma NameAt(buf: string, p: nat, e: Entry)
    requires Holds(buf, p, e.name) && Spelled(e)
    ensures e.name != "" && '\0' !in e.name
    ensures forall i :: p <= i < p + |e.name| ==> !IsSpace(At(buf, i)) && At(buf, i) != ':'
  {
    hide Holds, At, IsSpace;
    SolidIsNoSpace('\0');
    forall i | p <= i < p + |e.name| ensures !IsSpace(At(buf, i)) && At(buf, i) != ':' {
      HoldsAt(buf, p, e.name, i - p);
      assert e.name[i - p] in e.name;
      SolidIsNoSpace(At(buf, i));
    }
  }

  lemma ValueAt(buf: string, p: nat, e: Entry)
    requires Holds(buf, p, e.value) && Spelled(e)
    ensures e.value != "" && '\0' !in e.value
    ensures !IsSpace(At(buf, p)) && !IsSpace(At(buf, p + |e.value| - 1))
  {
    hide Holds, At, IsSpace;
    HoldsAt(buf, p, e.value, 0);
    HoldsAt(buf, p, e.value, |e.value| - 1);
    SolidIsNoSpace(e.value[0]);
    SolidIsNoSpace(e.value[|e.value| - 1]);
  }

  lemma LineEndAt(buf: string, p: nat)
    requires Holds(buf, p, "\r\n")
    ensures IsSpace(At(buf, p)) && IsSpace(At(buf, p + 1))
  {
    hide Holds, At;
    HoldsAt(buf, p, "\r\n", 0);
    HoldsAt(buf, p, "\r\n", 1);
  }

  // A text ends at its first NUL, however many bytes were asked for; a negative number asks for all.
  lemma {:induction false} NulEnds(buf: string, p: int, t: string, n: int)
    requires Holds(buf, p, t) && '\0' !in t && At(buf, p + |t|) == '\0' && (n < 0 || n >= |t|)
    ensures Strndup(buf, p, n) == t
    decreases |t|
  {
    hide Holds, At;
    if t != "" {
      HoldsAt(buf, p, t, 0);
      assert t[0] in t && t == t[..1] + t[1..];
      HoldsSplit(buf, p, t[..1], t[1..]);
      NulEnds(buf, p + 1, t[1..], n - 1);
    }
  }
}
