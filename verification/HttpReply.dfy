// smartc/string.c, and the reply header of smartc/http.c: reply_header_build
// prints it into a growing buffer, reply_parse reads it back.
module HttpReply {
  import opened Common
  import opened HttpHeader

  // ---------------------------------------------------------------- string.c

  // struct string: offset bytes of text, the rest of the buffer zeroed.
  class Buffer {
    var buf: array<char>
    var offset: nat

    ghost predicate Valid()
      reads this, buf
    {
      offset <= buf.Length && forall i :: offset <= i < buf.Length ==> buf[i] == '\0'
    }

    ghost function Text(): string
      requires Valid()
      reads this, buf
    {
      buf[..offset]
    }

    // string_limit_init
    constructor (size: nat)
      requires size > 0
      ensures Valid() && Text() == "" && fresh(buf) && buf.Length == size
    {
      buf := new char[size](_ => '\0');
      offset := 0;
    }

    // string_grow
    method Grow(len: nat)
      requires Valid()
      modifies this
      ensures Valid() && Text() == old(Text()) && offset == old(offset)
      ensures fresh(buf) && buf.Length == old(buf.Length) + len
    {
      var size := buf.Length + len;
      var was := buf;
      var grown := new char[size](_ => '\0');
      forall i | 0 <= i < was.Length {
        grown[i] := was[i];
      }
      buf := grown;
    }

    // memcpy into the buffer
    method Copy(at: nat, str: string)
      requires at + |str| <= buf.Length
      modifies buf
      ensures buf[..at] == old(buf[..at]) && buf[at..at + |str|] == str
      ensures forall i :: at + |str| <= i < buf.Length ==> buf[i] == old(buf[i])
    {
      forall i | 0 <= i < |str| {
        buf[at + i] := str[i];
      }
      assert forall i :: 0 <= i < |str| ==> buf[at..at + |str|][i] == buf[at + i] == str[i];
    }

    // string_append: grows by the whole length of the piece when it does not fit.
    method Append(str: string)
      requires Valid()
      modifies this, buf
      ensures Valid() && Text() == old(Text()) + str
      ensures buf == old(buf) || fresh(buf)
      ensures buf.Length == if old(offset + |str| > buf.Length) then old(buf.Length) + |str| else old(buf.Length)
    {
      ghost var text := Text();
      if offset + |str| > buf.Length {
        Grow(|str|);
      }
      var at := offset;
      Copy(at, str);
      offset := offset + |str|;
      assert Text() == buf[..at] + buf[at..offset];
    }

    // string_append_r
    method AppendBuffer(m: Buffer)
      requires Valid() && m.Valid() && m != this && m.buf != buf
      modifies this, buf
      ensures Valid() && Text() == old(Text()) + m.Text() && m.Text() == old(m.Text())
      ensures buf == old(buf) || fresh(buf)
    {
      Append(m.buf[..m.offset]);
    }

    // string_reset
    method Reset()
      requires Valid()
      modifies this, buf
      ensures Valid() && Text() == "" && buf == old(buf)
    {
      offset := 0;
      forall i | 0 <= i < buf.Length {
        buf[i] := '\0';
      }
    }
  }

  // ----------------------------------------------------------------- numbers

  // printf's %d for a number that is not negative.
  function Decimal(n: nat): (s: string)
    ensures s != "" && forall c :: c in s ==> '0' <= c <= '9'
  {
    var digit := ('0' as int + n % 10) as char;
    if n < 10 then [digit] else Decimal(n / 10) + [digit]
  }

  predicate IsDigit(c: char) {
    '0' <= c <= '9'
  }

  function Digits(buf: string, p: int, stop: int, acc: nat): nat
    decreases stop - p
  {
    if p < stop && IsDigit(At(buf, p)) then Digits(buf, p + 1, stop, acc * 10 + (At(buf, p) as int - '0' as int)) else acc
  }

  // atoi of the text from p, which ends at stop: white space, a sign, digits.
  function Atoi(buf: string, p: int, stop: int): int
    decreases stop - p
  {
    var c := At(buf, p);
    if p < stop && (IsSpace(c) || c == '\U{b}' || c == '\U{c}') then Atoi(buf, p + 1, stop)
    else if p < stop && c == '-' then 0 - Digits(buf, p + 1, stop, 0)
    else if p < stop && c == '+' then Digits(buf, p + 1, stop, 0)
    else Digits(buf, p, stop, 0)
  }

  lemma {:induction false} DigitsOfDecimal(buf: string, p: int, stop: int, n: nat)
    requires Holds(buf, p, Decimal(n)) && p + |Decimal(n)| <= stop
    ensures Digits(buf, p, stop, 0) == Digits(buf, p + |Decimal(n)|, stop, n)
    decreases n
  {
    var digit := ('0' as int + n % 10) as char;
    if n < 10 {
      HoldsAt(buf, p, Decimal(n), 0);
    } else {
      HoldsSplit(buf, p, Decimal(n / 10), [digit]);
      DigitsOfDecimal(buf, p, stop, n / 10);
      HoldsAt(buf, p, Decimal(n), |Decimal(n)| - 1);
    }
  }

  // Reading a printed number back, up to the first byte that is no digit.
  lemma AtoiOfDecimal(buf: string, p: int, stop: int, n: nat)
    requires Holds(buf, p, Decimal(n)) && p + |Decimal(n)| <= stop
    requires p + |Decimal(n)| == stop || !IsDigit(At(buf, p + |Decimal(n)|))
    ensures Atoi(buf, p, stop) == n
  {
    HoldsAt(buf, p, Decimal(n), 0);
    assert Decimal(n)[0] in Decimal(n);
    DigitsOfDecimal(buf, p, stop, n);
  }

  // ------------------------------------------------------ reply_header_build

  datatype Head = Head(major: nat, minor: nat, statu: nat, reason: string, entries: seq<Entry>)

  function StatusLine(h: Head): string {
    "HTTP/" + Decimal(h.major) + "." + Decimal(h.minor) + " " + Decimal(h.statu) + " " + h.reason
  }

  // What obj_state_string and cache_statu say, in the mark the proxy leaves.
  function ViaValue(stat: string, cache: string): string {
    stat + " with " + cache + " by smartc"
  }

  function Marked(h: Head, stat: string, cache: string): seq<Entry> {
    h.entries + [Entry("Via", ViaValue(stat, cache))]
  }

  function Printed(h: Head, stat: string, cache: string): string {
    StatusLine(h) + "\r\n" + Block(Marked(h, stat, cache)) + "\r\n"
  }

  const MAX_LINE := 2048

  lemma {:induction false} BlockGrows(es: seq<Entry>, e: Entry)
    ensures Block(es + [e]) == Block(es) + (Text(e) + "\r\n")
  {
    if es == [] {
      assert [e][1..] == [];
    } else {
      assert (es + [e])[1..] == es[1..] + [e];
      BlockGrows(es[1..], e);
    }
  }

  lemma EmptyBlock()
    ensures Block([]) == ""
  {
  }

  method AppendEntry(retv: Buffer, e: Entry)
    requires retv.Valid()
    modifies retv, retv.buf
    ensures retv.Valid() && retv.Text() == old(retv.Text()) + (Text(e) + "\r\n")
    ensures retv.buf == old(retv.buf) || fresh(retv.buf)
  {
    hide Buffer.Valid, Buffer.Text;
    ghost var text := retv.Text();
    retv.Append(e.name);
    retv.Append(": ");
    retv.Append(e.value);
    retv.Append("\r\n");
    assert text + e.name + ": " + e.value + "\r\n" == text + (Text(e) + "\r\n");
  }

  // The two lines formatted on the stack fit their array, as every state name and reason does.
  method ReplyHeaderBuild(h: Head, stat: string, cache: string) returns (retv: Buffer)
    requires |StatusLine(h)| + 2 < MAX_LINE - 1 && |Text(Entry("Via", ViaValue(stat, cache)))| + 2 < MAX_LINE
    ensures fresh(retv) && fresh(retv.buf) && retv.Valid() && retv.Text() == Printed(h, stat, cache)
  {
    hide Buffer.Valid, Buffer.Text, Block, Text, StatusLine, ViaValue;
    var line := StatusLine(h) + "\r\n";
    retv := new Buffer(BUF_SIZE);
    retv.Append(line);
    EmptyBlock();
    assert "" + line == line + "" && h.entries[..0] == [];
    var i := 0;
    while i < |h.entries|
      invariant i <= |h.entries| && fresh(retv) && fresh(retv.buf) && retv.Valid()
      invariant retv.Text() == line + Block(h.entries[..i])
    {
      var e := h.entries[i];
      BlockGrows(h.entries[..i], e);
      assert h.entries[..i + 1] == h.entries[..i] + [e];
      assert line + Block(h.entries[..i]) + (Text(e) + "\r\n") == line + Block(h.entries[..i + 1]);
      AppendEntry(retv, e);
      i := i + 1;
    }
    assert h.entries[..i] == h.entries;
    var via := Entry("Via", ViaValue(stat, cache));
    BlockGrows(h.entries, via);
    assert line + Block(h.entries) + (Text(via) + "\r\n") == line + Block(Marked(h, stat, cache));
    retv.Append(Text(via) + "\r\n");
    retv.Append("\r\n");
  }

  // ------------------------------------------------------------- reply_parse

  // strchr: the first position of c from p on, before any NUL; -1 if there is none.
  function StrChr(buf: string, p: int, c: char): (q: int)
    requires c != '\0'
    ensures q != -1 ==> 0 <= q < |buf| && p <= q && At(buf, q) == c && forall i :: p <= i < q ==> At(buf, i) != c && At(buf, i) != '\0'
    ensures q == -1 ==> exists n :: p <= n && At(buf, n) == '\0' && forall i :: p <= i < n ==> At(buf, i) != c
    decreases |buf| - p
  {
    if At(buf, p) == c && p >= 0 then p else if At(buf, p) == '\0' then -1 else StrChr(buf, p + 1, c)
  }

  // strtok with the delimiters " \t\r\n": where a token of the line that ends at stop begins, and where it ends.
  function TokenStart(buf: string, p: int, stop: int): (q: int)
    requires p <= stop
    ensures p <= q <= stop && (q < stop ==> !IsSpace(At(buf, q)))
    ensures forall i :: p <= i < q ==> IsSpace(At(buf, i))
    decreases stop - p
  {
    if p < stop && IsSpace(At(buf, p)) then TokenStart(buf, p + 1, stop) else p
  }

  function TokenEnd(buf: string, p: int, stop: int): (q: int)
    requires p <= stop
    ensures p <= q <= stop && (q < stop ==> IsSpace(At(buf, q)))
    ensures forall i :: p <= i < q ==> !IsSpace(At(buf, i))
    decreases stop - p
  {
    if p < stop && !IsSpace(At(buf, p)) then TokenEnd(buf, p + 1, stop) else p
  }

  function Lower(c: char): char {
    if 'A' <= c <= 'Z' then (c as int + 32) as char else c
  }

  // strncasecmp(buf, "HTTP/", 5) == 0
  predicate HasPrefix(buf: string) {
    Lower(At(buf, 0)) == 'h' && Lower(At(buf, 1)) == 't' && Lower(At(buf, 2)) == 't' && Lower(At(buf, 3)) == 'p' && At(buf, 4) == '/'
  }

  // strcasecmp
  predicate SameText(s: string, t: string) {
    |s| == |t| && forall i :: 0 <= i < |s| ==> Lower(s[i]) == Lower(t[i])
  }

  // length stands for body_size and no_content_length.
  datatype Reply = Reply(major: int, minor: int, statu: int, headers: seq<Entry>, headerSize: nat, length: Option<int>)

  // header_entry_get for Content-Length: its first entry, if there is one.
  function ContentLength(es: seq<Entry>): Option<int> {
    if es == [] then None
    else if SameText(es[0].name, "Content-Length") then Some(Atoi(es[0].value, 0, |es[0].value|))
    else ContentLength(es[1..])
  }

  method FindContentLength(es: seq<Entry>) returns (length: Option<int>)
    ensures length == ContentLength(es)
  {
    var i := 0;
    while i < |es|
      invariant i <= |es| && ContentLength(es) == ContentLength(es[i..])
    {
      if SameText(es[i].name, "Content-Length") {
        return Some(Atoi(es[i].value, 0, |es[i].value|));
      }
      assert es[i..][1..] == es[i + 1..];
      i := i + 1;
    }
    assert es[i..] == [];
    length := None;
  }

  ghost function EndOf(buf: string, base: int, l: nat): (e: nat)
    ensures IsEnd(buf, base, l, e)
  {
    if l == 0 then 0 else
      var e := EndOf(buf, base, l - 1);
      if e > 0 then e else if Blank(buf, base, l) then l else 0
  }

  // What reply_parse makes of any received bytes; nothing of a header that is not all there.
  ghost function Parsed(buf: string): Option<Reply> {
    var nl := StrChr(buf, 0, '\n');
    if nl == -1 || !HasPrefix(buf) then None else
      var v := TokenEnd(buf, 0, nl + 1);
      var dot := MemChr(buf, 0, '.', v);
      if dot == -1 || v > nl then None else
        var s := TokenStart(buf, v + 1, nl + 1);
        var size := EndOf(buf, nl + 1, |buf| - nl - 1);
        if s > nl || size == 0 then None else
          var headers := Entries(buf, nl + 1, nl + 1 + size, size);
          if headers.None? then None else
            Some(Reply(Atoi(buf, 5, |buf|), Atoi(buf, dot + 1, v), Atoi(buf, s, TokenEnd(buf, s, nl + 1)),
                       headers.value, EndOf(buf, 0, |buf|), ContentLength(headers.value)))
  }

  // Looking again at one byte more than the header finds the same end.
  lemma RescanAgrees(buf: string, base: nat, l: nat)
    requires base + l == |buf|
    ensures EndOf(buf, base, EndOf(buf, base, l) + 1) == EndOf(buf, base, l)
  {
    var e := EndOf(buf, base, l);
    assert IsEnd(buf, base, e + 1, EndOf(buf, base, e + 1));
    if e > 0 {
      EndIsStable(buf, buf, base, e, l, e, e);
    }
  }

  lemma EndIs(buf: string, base: nat, l: nat, e: nat)
    requires IsEnd(buf, base, l, e)
    ensures e == EndOf(buf, base, l)
  {
    EndIsUnique(buf, base, l, e);
  }

  // The LF of the line is itself a delimiter.
  lemma TokenWithinLine(buf: string, p: int, nl: int)
    requires p <= nl && At(buf, nl) == '\n'
    ensures TokenEnd(buf, p, nl + 1) <= nl
  {
  }

  // The header of a reply that is parsed lies within what was received.
  lemma ParsedHeader(buf: string)
    requires Parsed(buf).Some?
    ensures 0 < Parsed(buf).value.headerSize <= |buf|
  {
    hide Atoi, Entries, ContentLength, TokenStart, TokenEnd, MemChr, IsSpace;
    var nl := StrChr(buf, 0, '\n');
    var size := EndOf(buf, nl + 1, |buf| - nl - 1);
    assert Blank(buf, nl + 1, size);
    assert Blank(buf, 0, nl + 1 + size);
  }

  method ReplyParse(buf: string) returns (r: Option<Reply>)
    ensures r == Parsed(buf)
  {
    hide Entries, Atoi, MemChr, StrChr, TokenEnd, TokenStart, HasPrefix, ContentLength, EndOf, IsSpace, At, IsEnd;
    var end := StrChr(buf, 0, '\n');
    if end == -1 {
      return None;
    }
    if !HasPrefix(buf) {
      return None;
    }
    var sLen := end;
    TokenWithinLine(buf, 0, end);
    var token := TokenEnd(buf, 0, sLen + 1);
    var major := Atoi(buf, 5, |buf|);
    var dot := MemChr(buf, 0, '.', token);
    if dot == -1 {
      return None;
    }
    var minor := Atoi(buf, dot + 1, token);
    var next := TokenStart(buf, token + 1, sLen + 1);
    if next == sLen + 1 {
      return None;
    }
    var statu := Atoi(buf, next, TokenEnd(buf, next, sLen + 1));
    var start := end + 1;
    var headerLen := HeadersEnd(buf, start, |buf| - sLen - 1);
    var headers := HttpHeaderParse(buf, start, headerLen + 1);
    EndIs(buf, start, |buf| - sLen - 1, headerLen);
    RescanAgrees(buf, start, |buf| - sLen - 1);
    var headerSize := HeadersEnd(buf, 0, |buf|);
    EndIs(buf, 0, |buf|, headerSize);
    if headers.None? {
      return None;
    }
    var length := FindContentLength(headers.value);
    r := Some(Reply(major, minor, statu, headers.value, headerSize, length));
  }

  // ------------------------------------------------------------- round trip

  // What the proxy prints: a reason in one line, names and values as the parser expects them.
  ghost predicate Printable(h: Head, stat: string, cache: string) {
    && (forall c :: c in h.reason ==> c != '\r' && c != '\n' && c != '\0')
    && AllGood(Marked(h, stat, cache))
  }

  lemma DecimalByte(buf: string, p: int, n: nat)
    requires Holds(buf, p, Decimal(n))
    ensures forall i: int :: p <= i < p + |Decimal(n)| ==> IsDigit(At(buf, i))
    ensures |Decimal(n)| >= 1
  {
    forall i: int | p <= i < p + |Decimal(n)|
      ensures IsDigit(At(buf, i))
    {
      HoldsAt(buf, p, Decimal(n), i - p);
      assert Decimal(n)[i - p] in Decimal(n);
    }
  }

  // Where the pieces of a status line stand.
  datatype Places = Places(dot: nat, v: nat, s: nat, e: nat, nl: nat)

  function PlacesOf(h: Head): Places {
    var dot := 5 + |Decimal(h.major)|;
    var v := dot + 1 + |Decimal(h.minor)|;
    var s := v + 1;
    var e := s + |Decimal(h.statu)|;
    Places(dot, v, s, e, e + 1 + |h.reason| + 1)
  }

  ghost predicate LineAt(buf: string, h: Head) {
    var l := PlacesOf(h);
    && Holds(buf, 0, "HTTP/") && Holds(buf, 5, Decimal(h.major)) && Holds(buf, l.dot, ".")
    && Holds(buf, l.dot + 1, Decimal(h.minor)) && Holds(buf, l.v, " ")
    && Holds(buf, l.s, Decimal(h.statu)) && Holds(buf, l.e, " ") && Holds(buf, l.e + 1, h.reason)
    && Holds(buf, l.e + 1 + |h.reason|, "\r\n")
  }

  lemma StatusLineAt(buf: string, h: Head)
    requires Holds(buf, 0, StatusLine(h) + "\r\n")
    ensures LineAt(buf, h) && |StatusLine(h)| + 2 == PlacesOf(h).nl + 1
  {
    hide Holds, Decimal;
    var (a, b, c) := (Decimal(h.major), Decimal(h.minor), Decimal(h.statu));
    var t := " " + h.reason + "\r\n";
    assert StatusLine(h) + "\r\n" == "HTTP/" + (a + ("." + (b + (" " + (c + (" " + (h.reason + "\r\n")))))));
    HoldsSplit(buf, 0, "HTTP/", a + ("." + (b + (" " + (c + (" " + (h.reason + "\r\n")))))));
    HoldsSplit(buf, 5, a, "." + (b + (" " + (c + (" " + (h.reason + "\r\n"))))));
    var l := PlacesOf(h);
    HoldsSplit(buf, l.dot, ".", b + (" " + (c + (" " + (h.reason + "\r\n")))));
    HoldsSplit(buf, l.dot + 1, b, " " + (c + (" " + (h.reason + "\r\n"))));
    HoldsSplit(buf, l.v, " ", c + (" " + (h.reason + "\r\n")));
    HoldsSplit(buf, l.s, c, " " + (h.reason + "\r\n"));
    HoldsSplit(buf, l.e, " ", h.reason + "\r\n");
    HoldsSplit(buf, l.e + 1, h.reason, "\r\n");
  }

  ghost predicate LineChars(buf: string, l: Places) {
    && 5 < l.dot < l.v < l.s < l.e < l.nl && l.s == l.v + 1
    && (forall i :: 0 <= i < l.dot ==> At(buf, i) != '.')
    && At(buf, l.dot) == '.' && At(buf, l.v) == ' ' && At(buf, l.e) == ' ' && At(buf, l.nl) == '\n'
    && (forall i :: 0 <= i < l.v || l.s <= i < l.e ==> !IsSpace(At(buf, i)) && At(buf, i) != '\0')
    && (forall i :: l.e < i < l.nl ==> At(buf, i) != '\n' && At(buf, i) != '\0')
    && HasPrefix(buf)
  }

  lemma PrefixChars(buf: string)
    requires Holds(buf, 0, "HTTP/")
    ensures HasPrefix(buf)
    ensures forall i :: 0 <= i < 5 ==> At(buf, i) != '.' && !IsSpace(At(buf, i)) && At(buf, i) != '\0'
  {
    HoldsAt(buf, 0, "HTTP/", 0);
    HoldsAt(buf, 0, "HTTP/", 1);
    HoldsAt(buf, 0, "HTTP/", 2);
    HoldsAt(buf, 0, "HTTP/", 3);
    HoldsAt(buf, 0, "HTTP/", 4);
  }

  lemma ReasonChars(buf: string, p: nat, reason: string)
    requires Holds(buf, p, reason) && Holds(buf, p + |reason|, "\r\n")
    requires forall c :: c in reason ==> c != '\r' && c != '\n' && c != '\0'
    ensures forall i :: p <= i < p + |reason| + 1 ==> At(buf, i) != '\n' && At(buf, i) != '\0'
    ensures At(buf, p + |reason| + 1) == '\n'
  {
    HoldsAt(buf, p + |reason|, "\r\n", 0);
    HoldsAt(buf, p + |reason|, "\r\n", 1);
    forall i | p <= i < p + |reason|
      ensures At(buf, i) != '\n' && At(buf, i) != '\0'
    {
      HoldsAt(buf, p, reason, i - p);
      assert reason[i - p] in reason;
    }
  }

  lemma DigitIsSolid(c: char)
    requires IsDigit(c)
    ensures c != '.' && !IsSpace(c) && c != '\0'
  {
  }

  lemma CharsOfLine(buf: string, h: Head)
    requires LineAt(buf, h) && forall c :: c in h.reason ==> c != '\r' && c != '\n' && c != '\0'
    ensures LineChars(buf, PlacesOf(h))
  {
    hide Holds, Decimal, IsDigit, HasPrefix, At, IsSpace;
    var l := PlacesOf(h);
    PrefixChars(buf);
    DecimalByte(buf, 5, h.major);
    DecimalByte(buf, l.dot + 1, h.minor);
    DecimalByte(buf, l.s, h.statu);
    HoldsAt(buf, l.dot, ".", 0);
    HoldsAt(buf, l.v, " ", 0);
    HoldsAt(buf, l.e, " ", 0);
    ReasonChars(buf, l.e + 1, h.reason);
    DotIsSolid();
    forall i | IsDigit(At(buf, i))
      ensures At(buf, i) != '.' && !IsSpace(At(buf, i)) && At(buf, i) != '\0'
    {
      DigitIsSolid(At(buf, i));
    }
  }

  lemma DotIsSolid()
    ensures !IsSpace('.')
  {
  }

  lemma StrChrIs(buf: string, p: nat, c: char, q: nat)
    requires c != '\0' && p <= q && At(buf, q) == c && forall i :: p <= i < q ==> At(buf, i) != c && At(buf, i) != '\0'
    ensures StrChr(buf, p, c) == q
  {
  }

  lemma TokenEndIs(buf: string, p: int, stop: int, q: int)
    requires p <= q < stop && IsSpace(At(buf, q)) && forall i :: p <= i < q ==> !IsSpace(At(buf, i))
    ensures TokenEnd(buf, p, stop) == q
  {
  }

  lemma TokenStartHere(buf: string, p: int, stop: int)
    requires p < stop && !IsSpace(At(buf, p))
    ensures TokenStart(buf, p, stop) == p
  {
  }

  // The scans of reply_parse stop at the seams of the printed line.
  lemma LineScanned(buf: string, l: Places)
    requires LineChars(buf, l)
    ensures StrChr(buf, 0, '\n') == l.nl
    ensures TokenEnd(buf, 0, l.nl + 1) == l.v && MemChr(buf, 0, '.', l.v) == l.dot
    ensures TokenStart(buf, l.v + 1, l.nl + 1) == l.s && TokenEnd(buf, l.s, l.nl + 1) == l.e
  {
    hide StrChr, TokenEnd, MemChr, TokenStart, At, HasPrefix;
    forall i | 0 <= i < l.nl
      ensures At(buf, i) != '\n' && At(buf, i) != '\0'
    {
      if i == l.v || i == l.e || l.e < i {
      } else {
        assert !IsSpace(At(buf, i));
      }
    }
    StrChrIs(buf, 0, '\n', l.nl);
    TokenEndIs(buf, 0, l.nl + 1, l.v);
    MemChrIs(buf, 0, '.', l.v, l.dot);
    TokenStartHere(buf, l.s, l.nl + 1);
    TokenEndIs(buf, l.s, l.nl + 1, l.e);
  }

  lemma NumbersRead(buf: string, h: Head)
    requires LineAt(buf, h)
    ensures var l := PlacesOf(h);
      && Atoi(buf, 5, |buf|) == h.major
      && Atoi(buf, l.dot + 1, l.v) == h.minor
      && Atoi(buf, l.s, l.e) == h.statu
  {
    hide Holds, Decimal, Atoi;
    var l := PlacesOf(h);
    HoldsAt(buf, l.dot, ".", 0);
    HoldsWithin(buf, 5, Decimal(h.major));
    AtoiOfDecimal(buf, 5, |buf|, h.major);
    AtoiOfDecimal(buf, l.dot + 1, l.v, h.minor);
    AtoiOfDecimal(buf, l.s, l.e, h.statu);
  }

  lemma HoldsWithin(buf: string, p: int, t: string)
    requires Holds(buf, p, t)
    ensures p + |t| <= |buf|
  {
  }

  lemma StatusIsLine(h: Head, buf: string)
    requires Holds(buf, 0, StatusLine(h) + "\r\n") && LineChars(buf, PlacesOf(h))
    requires |StatusLine(h)| + 2 == PlacesOf(h).nl + 1
    ensures IsLine(buf, 0, StatusLine(h))
  {
    forall i | 0 <= i < |StatusLine(h)|
      ensures StatusLine(h)[i] != '\n'
    {
      HoldsAt(buf, 0, StatusLine(h) + "\r\n", i);
    }
  }

  lemma PrintedHolds(h: Head, stat: string, cache: string, body: string)
    ensures var buf := Printed(h, stat, cache) + body;
      && Holds(buf, 0, StatusLine(h) + "\r\n")
      && Holds(buf, |StatusLine(h)| + 2, Block(Marked(h, stat, cache)) + "\r\n")
    ensures |Printed(h, stat, cache)| == |StatusLine(h)| + 2 + |Block(Marked(h, stat, cache))| + 2
  {
    hide StatusLine, Block, Marked;
    var (line, block) := (StatusLine(h) + "\r\n", Block(Marked(h, stat, cache)) + "\r\n");
    var buf := Printed(h, stat, cache) + body;
    assert buf == line + block + body;
    assert Holds(buf, 0, line + block);
    HoldsSplit(buf, 0, line, block);
  }

  lemma EndWider(buf: string, base: int, l: nat, l': nat, e: nat)
    requires IsEnd(buf, base, l, e) && e > 0 && l <= l'
    ensures IsEnd(buf, base, l', e)
  {
  }

  lemma HeaderRead(buf: string, line: string, es: seq<Entry>)
    requires IsLine(buf, 0, line) && AllGood(es) && Holds(buf, |line| + 2, Block(es) + "\r\n")
    ensures var (start, size) := (|line| + 2, |Block(es)| + 2);
      && EndOf(buf, start, |buf| - start) == size
      && EndOf(buf, 0, |buf|) == start + size
      && Entries(buf, start, start + size, size) == Some(es)
  {
    hide IsEnd, EndOf, Entries, IsLine, Block, AllGood, At, Holds;
    var (start, size) := (|line| + 2, |Block(es)| + 2);
    HoldsWithin(buf, start, Block(es) + "\r\n");
    EndOfBlock(buf, start, es);
    EndWider(buf, start, size, |buf| - start, size);
    EndIs(buf, start, |buf| - start, size);
    EndAfterLine(buf, 0, line, |buf| - start, size);
    EndIs(buf, 0, |buf|, start + size);
    LineBytes(buf, 0, line);
    EntriesOfBlock(buf, start, size, es);
  }

  // reply_parse undoes reply_header_build, whatever body bytes follow the header: the same version,
  // status and entries in order, the proxy's own Via entry last, and the header size printed.
  lemma ParseOfPrinted(h: Head, stat: string, cache: string, body: string)
    requires Printable(h, stat, cache)
    ensures var es := Marked(h, stat, cache);
      Parsed(Printed(h, stat, cache) + body) ==
        Some(Reply(h.major, h.minor, h.statu, es, |Printed(h, stat, cache)|, ContentLength(es)))
  {
    hide Printed, Marked, StatusLine, Block, Holds, LineChars, LineAt, IsLine, AllGood, Atoi, Entries, EndOf, StrChr, MemChr,
      TokenEnd, TokenStart, ContentLength, At, PlacesOf, HasPrefix, Decimal, IsSpace;
    var es, buf := Marked(h, stat, cache), Printed(h, stat, cache) + body;
    PrintedHolds(h, stat, cache, body);
    StatusLineAt(buf, h);
    CharsOfLine(buf, h);
    LineScanned(buf, PlacesOf(h));
    PrefixFound(buf, PlacesOf(h));
    NumbersRead(buf, h);
    StatusIsLine(h, buf);
    HeaderRead(buf, StatusLine(h), es);
  }

  lemma PrefixFound(buf: string, l: Places)
    requires LineChars(buf, l)
    ensures HasPrefix(buf) && l.v < l.s <= l.nl
  {
  }

  lemma AtPrefix(s: string, n: nat, i: int)
    requires n <= |s| && i < n
    ensures At(s[..n], i) == At(s, i)
  {
  }

  // Blank looks at no byte behind the text it speaks of.
  lemma BlankInPrefix(s: string, n: nat, base: nat, e: nat)
    requires n <= |s| && base + e <= n && Blank(s[..n], base, e)
    ensures Blank(s, base, e)
  {
  }

  // However the bytes trickle in, nothing is parsed before the last byte of the header is there.
  lemma IncompleteIsRefused(h: Head, stat: string, cache: string, n: nat)
    requires Printable(h, stat, cache) && n < |Printed(h, stat, cache)|
    ensures Parsed(Printed(h, stat, cache)[..n]) == None
  {
    hide Printed, Marked, StatusLine, Block, Holds, LineAt, IsLine, AllGood, Atoi, Entries, EndOf, StrChr, MemChr,
      TokenEnd, TokenStart, ContentLength, At, PlacesOf, HasPrefix, Decimal, IsSpace, Blank, LineChars;
    var es, buf := Marked(h, stat, cache), Printed(h, stat, cache);
    var got := buf[..n];
    assert buf + "" == buf;
    PrintedHolds(h, stat, cache, "");
    StatusLineAt(buf, h);
    CharsOfLine(buf, h);
    StatusIsLine(h, buf);
    var nl := StrChr(got, 0, '\n');
    if nl != -1 {
      LineFeedInPrefix(buf, n, PlacesOf(h), nl);
      EndOfBlock(buf, nl + 1, es);
      var e := EndOf(got, nl + 1, n - nl - 1);
      if e > 0 {
        BlankInPrefix(buf, n, nl + 1, e);
      }
    }
  }

  lemma LineFeedInPrefix(buf: string, n: nat, l: Places, nl: nat)
    requires LineChars(buf, l) && n <= |buf| && nl == StrChr(buf[..n], 0, '\n')
    ensures nl == l.nl
  {
    hide TokenEnd, TokenStart, MemChr, HasPrefix;
    LineScanned(buf, l);
    forall i | 0 <= i < n
      ensures At(buf[..n], i) == At(buf, i)
    {
      AtPrefix(buf, n, i);
    }
    StrChrIs(buf, 0, '\n', nl);
  }

  // The body size is the number in the first Content-Length entry, however it is capitalised.
  lemma {:induction false} ContentLengthRead(es: seq<Entry>, k: nat, n: nat)
    requires k < |es| && SameText(es[k].name, "Content-Length") && es[k].value == Decimal(n)
    requires forall j :: 0 <= j < k ==> !SameText(es[j].name, "Content-Length")
    ensures ContentLength(es) == Some(n)
  {
    if k > 0 {
      ContentLengthRead(es[1..], k - 1, n);
    } else {
      AtoiOfDecimal(es[0].value, 0, |es[0].value|, n);
    }
  }

  // The two together: what is built, stored with a body behind it and parsed again.
  method BuildAndParse(h: Head, stat: string, cache: string, body: string) returns (r: Option<Reply>)
    requires Printable(h, stat, cache)
    requires |StatusLine(h)| + 2 < MAX_LINE - 1 && |Text(Entry("Via", ViaValue(stat, cache)))| + 2 < MAX_LINE
    ensures var es := Marked(h, stat, cache);
      r == Some(Reply(h.major, h.minor, h.statu, es, |Printed(h, stat, cache)|, ContentLength(es)))
  {
    hide Printed, Parsed;
    var out := ReplyHeaderBuild(h, stat, cache);
    out.Append(body);
    ParseOfPrinted(h, stat, cache, body);
    r := ReplyParse(out.buf[..out.offset]);
  }
}
