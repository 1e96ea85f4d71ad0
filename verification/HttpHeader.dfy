// smartc/http_header.c: finding the end of a header and taking its lines apart.
// A buffer is read by position; what lies outside it reads as NUL, as the zero
// fill of the proxy's buffers does.
module HttpHeader {
  import opened Common

  datatype Entry = Entry(name: string, value: string)

  function At(buf: string, i: int): char {
    if 0 <= i < |buf| then buf[i] else '\0'
  }

  // The text t stands in buf at position p.
  predicate Holds(buf: string, p: int, t: string) {
    0 <= p && p + |t| <= |buf| && buf[p..p + |t|] == t
  }

  lemma HoldsAt(buf: string, p: int, t: string, i: nat)
    requires Holds(buf, p, t) && i < |t|
    ensures At(buf, p + i) == t[i]
  {
    assert buf[p..p + |t|][i] == buf[p + i];
  }

  lemma HoldsSplit(buf: string, p: int, s: string, t: string)
    ensures Holds(buf, p, s + t) <==> Holds(buf, p, s) && Holds(buf, p + |s|, t)
  {
    if Holds(buf, p, s + t) {
      assert buf[p..p + |s|] == (s + t)[..|s|];
      assert buf[p + |s|..p + |s| + |t|] == (s + t)[|s|..];
    }
    if Holds(buf, p, s) && Holds(buf, p + |s|, t) {
      assert buf[p..p + |s + t|] == buf[p..p + |s|] + buf[p + |s|..p + |s| + |t|];
    }
  }

  // ------------------------------------------------------------ headers_end

  predicate LineStart(buf: string, base: int, k: nat) {
    k == 0 || At(buf, base + k - 1) == '\n'
  }

  // The text from base to base + e ends in an empty line, closed by LF or CRLF.
  predicate Blank(buf: string, base: int, e: nat) {
    && e >= 1
    && At(buf, base + e - 1) == '\n'
    && (LineStart(buf, base, e - 1) || (e >= 2 && At(buf, base + e - 2) == '\r' && LineStart(buf, base, e - 2)))
  }

  // e is the length of the shortest such text within l bytes, 0 if there is none.
  ghost predicate IsEnd(buf: string, base: int, l: nat, e: nat) {
    && (e > 0 ==> e <= l && Blank(buf, base, e))
    && forall k: nat :: k <= l && (e == 0 || k < e) ==> !Blank(buf, base, k)
  }

  method HeadersEnd(mime: string, base: int, l: nat) returns (end: nat)
    ensures IsEnd(mime, base, l, end)
  {
    var e := 0;
    var state := 1;
    while e < l && state < 3
      invariant e <= l && state <= 3
      invariant state == 1 <==> LineStart(mime, base, e) && state != 3
      invariant state == 2 <==> e >= 1 && At(mime, base + e - 1) == '\r' && LineStart(mime, base, e - 1)
      invariant state == 3 <==> Blank(mime, base, e)
      invariant forall k: nat :: k < e ==> !Blank(mime, base, k)
    {
      var c := At(mime, base + e);
      match state {
        case 0 =>
          if c == '\n' { state := 1; }
        case 1 =>
          if c == '\r' { state := 2; } else if c == '\n' { state := 3; } else { state := 0; }
        case _ =>
          if c == '\n' { state := 3; } else { state := 0; }
      }
      e := e + 1;
    }
    if state == 3 {
      return e;
    }
    return 0;
  }

  // A non-zero answer stays the answer when more bytes arrive.
  lemma EndIsStable(buf: string, buf': string, base: int, l: nat, l': nat, e: nat, e': nat)
    requires IsEnd(buf, base, l, e) && IsEnd(buf', base, l', e') && e > 0 && l <= l'
    requires forall i :: base <= i < base + l ==> At(buf, i) == At(buf', i)
    ensures e' == e
  {
    forall k: nat | k <= e
      ensures Blank(buf, base, k) <==> Blank(buf', base, k)
    {
    }
  }

  // ------------------------------------------------------------ clean_space

  predicate IsSpace(c: char) {
    c == ' ' || c == '\n' || c == '\r' || c == '\t'
  }

  // The first position from p on that holds no space.
  function FirstSolid(buf: string, p: int): (q: int)
    ensures q >= p && !IsSpace(At(buf, q))
    ensures forall i :: p <= i < q ==> IsSpace(At(buf, i))
    decreases |buf| - p
  {
    if IsSpace(At(buf, p)) then FirstSolid(buf, p + 1) else p
  }

  // The last position up to p that holds no space.
  function LastSolid(buf: string, p: int): (q: int)
    ensures q <= p && !IsSpace(At(buf, q))
    ensures forall i :: q < i <= p ==> IsSpace(At(buf, i))
    decreases p
  {
    if IsSpace(At(buf, p)) then LastSolid(buf, p - 1) else p
  }

  // The trailing scan starts one past the region of size bytes.
  method CleanSpace(buf: string, str: int, size: int) returns (str': int, size': int)
    ensures str' == FirstSolid(buf, str)
    ensures size' == LastSolid(buf, str + size) - str'
  {
    var i, j := 0, 0;
    while IsSpace(At(buf, str + i))
      invariant i >= 0 && FirstSolid(buf, str) == FirstSolid(buf, str + i)
      decreases |buf| - (str + i)
    {
      i := i + 1;
    }
    while IsSpace(At(buf, str + size - j))
      invariant j >= 0 && LastSolid(buf, str + size) == LastSolid(buf, str + size - j)
      decreases str + size - j
    {
      j := j + 1;
    }
    str' := str + i;
    size' := size - i - j;
  }

  // ---------------------------------------------------- header_entry_create

  // memchr: the first position of c among n bytes from p, -1 if there is none.
  function MemChr(buf: string, p: int, c: char, n: nat): (q: int)
    ensures q == -1 ==> forall i :: p <= i < p + n ==> At(buf, i) != c
    ensures q != -1 ==> p <= q < p + n && At(buf, q) == c && forall i :: p <= i < q ==> At(buf, i) != c
    requires p >= 0
    decreases n
  {
    if n == 0 then -1 else if At(buf, p) == c then p else MemChr(buf, p + 1, c, n - 1)
  }

  // strndup: up to n bytes, fewer if a NUL comes first; a negative n is a huge size_t.
  function Strndup(buf: string, p: int, n: int): string
    decreases |buf| - p
  {
    if n == 0 || At(buf, p) == '\0' then "" else [At(buf, p)] + Strndup(buf, p + 1, n - 1)
  }

  lemma {:induction false} StrndupHolds(buf: string, p: int, t: string)
    requires Holds(buf, p, t) && '\0' !in t
    ensures Strndup(buf, p, |t|) == t
    decreases |t|
  {
    if t != "" {
      HoldsAt(buf, p, t, 0);
      assert t == t[..1] + t[1..];
      HoldsSplit(buf, p, t[..1], t[1..]);
      StrndupHolds(buf, p + 1, t[1..]);
    }
  }

  // The name runs up to the last solid byte at or before the one behind the colon, the value up to the
  // last one at or before the second byte behind the line.
  function EntryAt(buf: string, str: nat, size: nat): Option<Entry> {
    var middle := MemChr(buf, str, ':', size);
    if middle == -1 then None else
      var name, value := FirstSolid(buf, str), FirstSolid(buf, middle + 1);
      Some(Entry(Strndup(buf, name, LastSolid(buf, middle + 1) - name),
                 Strndup(buf, value, LastSolid(buf, str + size + 1) - value + 1)))
  }

  method HeaderEntryCreate(buf: string, str: nat, size: nat) returns (entry: Option<Entry>)
    ensures entry == EntryAt(buf, str, size)
  {
    var end := str + size;
    var middle := MemChr(buf, str, ':', size);
    if middle == -1 {
      return None;
    }
    var start, nameSize := CleanSpace(buf, str, middle - str + 1);
    var name := Strndup(buf, start, nameSize);
    var valueSize;
    start, valueSize := CleanSpace(buf, middle + 1, end - (middle + 1) + 1);
    var value := Strndup(buf, start, valueSize + 1);
    entry := Some(Entry(name, value));
  }

  predicate GoodName(name: string) {
    name != "" && forall c :: c in name ==> !IsSpace(c) && c != ':' && c != '\0'
  }

  predicate GoodValue(value: string) {
    && value != ""
    && !IsSpace(value[0]) && !IsSpace(value[|value| - 1])
    && forall c :: c in value ==> c != '\r' && c != '\n' && c != '\0'
  }

  predicate Good(e: Entry) {
    GoodName(e.name) && GoodValue(e.value)
  }

  function Text(e: Entry): string {
    e.name + ": " + e.value
  }

  lemma MemChrIs(buf: string, p: nat, c: char, n: nat, q: nat)
    requires p <= q < p + n && At(buf, q) == c && forall i :: p <= i < q ==> At(buf, i) != c
    ensures MemChr(buf, p, c, n) == q
  {
  }

  lemma LastSolidIs(buf: string, p: int, q: int)
    requires q <= p && !IsSpace(At(buf, q)) && forall i :: q < i <= p ==> IsSpace(At(buf, i))
    ensures LastSolid(buf, p) == q
  {
  }

  lemma FirstSolidIs(buf: string, p: int, q: int)
    requires p <= q && !IsSpace(At(buf, q)) && forall i :: p <= i < q ==> IsSpace(At(buf, i))
    ensures FirstSolid(buf, p) == q
  {
  }

  lemma ColonIsSolid()
    ensures !IsSpace(':')
  {
  }

  lemma NameByte(buf: string, str: nat, name: string, i: nat)
    requires GoodName(name) && Holds(buf, str, name)
    ensures name != "" && '\0' !in name && '\0' !in name + ":"
    ensures i < |name| ==> At(buf, str + i) != ':' && !IsSpace(At(buf, str + i))
  {
    if i < |name| {
      HoldsAt(buf, str, name, i);
      assert name[i] in name;
    }
  }

  lemma NameText(buf: string, str: nat, size: nat, name: string)
    requires GoodName(name) && Holds(buf, str, name + ":") && |name| < size
    ensures MemChr(buf, str, ':', size) == str + |name|
    ensures FirstSolid(buf, str) == str
    ensures var n := if IsSpace(At(buf, str + |name| + 1)) then |name| else |name| + 1;
      LastSolid(buf, str + |name| + 1) == str + n && Strndup(buf, str, n) == (name + ":")[..n]
  {
    hide FirstSolid, LastSolid, MemChr, Strndup, Holds, GoodName, IsSpace, At;
    HoldsSplit(buf, str, name, ":");
    forall j: int | str <= j < str + |name|
      ensures At(buf, j) != ':' && !IsSpace(At(buf, j))
    {
      NameByte(buf, str, name, j - str);
    }
    NameByte(buf, str, name, 0);
    NameByte(buf, str, name, |name| - 1);
    HoldsAt(buf, str + |name|, ":", 0);
    ColonIsSolid();
    MemChrIs(buf, str, ':', size, str + |name|);
    FirstSolidIs(buf, str, str);
    if IsSpace(At(buf, str + |name| + 1)) {
      LastSolidIs(buf, str + |name| + 1, str + |name|);
    } else {
      LastSolidIs(buf, str + |name| + 1, str + |name| + 1);
    }
    StrndupHolds(buf, str, name);
    StrndupHolds(buf, str, name + ":");
    assert (name + ":")[..|name|] == name && (name + ":")[..|name| + 1] == name + ":";
  }

  lemma ValueText(buf: string, p: nat, value: string)
    requires GoodValue(value) && Holds(buf, p, " " + value + "\r\n")
    ensures FirstSolid(buf, p) == p + 1
    ensures LastSolid(buf, p + |value| + 2) == p + |value|
    ensures Strndup(buf, p + 1, |value|) == value
  {
    hide FirstSolid, LastSolid, Strndup;
    var t := " " + value + "\r\n";
    HoldsAt(buf, p, t, 0);
    HoldsAt(buf, p, t, 1);
    HoldsAt(buf, p, t, |value|);
    HoldsAt(buf, p, t, |value| + 1);
    HoldsAt(buf, p, t, |value| + 2);
    FirstSolidIs(buf, p, p + 1);
    LastSolidIs(buf, p + |value| + 2, p + |value|);
    assert t == " " + (value + "\r\n");
    HoldsSplit(buf, p, " ", value + "\r\n");
    HoldsSplit(buf, p + 1, value, "\r\n");
    StrndupHolds(buf, p + 1, value);
  }

  // A line as the proxy prints it gives back its entry: the two off-by-one sums cancel.
  lemma EntryOfText(buf: string, str: nat, e: Entry)
    requires Good(e) && Holds(buf, str, Text(e) + "\r\n")
    ensures EntryAt(buf, str, |Text(e)|) == Some(e)
  {
    hide FirstSolid, LastSolid, MemChr, Strndup, Holds, Good;
    assert GoodName(e.name) && GoodValue(e.value) by { GoodParts(e); }
    var rest := " " + e.value + "\r\n";
    assert Text(e) + "\r\n" == (e.name + ":") + rest;
    HoldsSplit(buf, str, e.name + ":", rest);
    HoldsAt(buf, str + |e.name| + 1, rest, 0);
    NameText(buf, str, |Text(e)|, e.name);
    ValueText(buf, str + |e.name| + 1, e.value);
    assert (e.name + ":")[..|e.name|] == e.name;
  }

  lemma GoodParts(e: Entry)
    requires Good(e)
    ensures GoodName(e.name) && GoodValue(e.value)
  {
  }

  // Without a blank behind the colon the colon stays in the name: "Name:value" is entered under "Name:".
  lemma ColonStaysInName(buf: string, str: nat, size: nat, name: string)
    requires GoodName(name) && Holds(buf, str, name + ":") && |name| < size
    ensures EntryAt(buf, str, size).Some?
    ensures EntryAt(buf, str, size).value.name == if IsSpace(At(buf, str + |name| + 1)) then name else name + ":"
  {
    NameText(buf, str, size, name);
    assert (name + ":")[..|name|] == name && (name + ":")[..|name| + 1] == name + ":";
  }

  // A line closed by a bare LF runs on: unless the next byte is a space, the LF and that byte join the value.
  lemma BareLineFeed(buf: string, str: nat, e: Entry)
    requires Good(e) && Holds(buf, str, Text(e) + "\n")
    requires At(buf, str + |Text(e)| + 1) != '\0'
    ensures var next := At(buf, str + |Text(e)| + 1);
      EntryAt(buf, str, |Text(e)|) == Some(Entry(e.name, if IsSpace(next) then e.value else e.value + "\n" + [next]))
  {
    hide FirstSolid, LastSolid, MemChr, Strndup, Holds, Good, At, GoodName;
    GoodParts(e);
    var p := str + |e.name| + 1;
    var next := At(buf, str + |Text(e)| + 1);
    assert Text(e) + "\n" == (e.name + ":") + (" " + e.value + "\n");
    HoldsSplit(buf, str, e.name + ":", " " + e.value + "\n");
    HoldsAt(buf, p, " " + e.value + "\n", 0);
    NameText(buf, str, |Text(e)|, e.name);
    assert (e.name + ":")[..|e.name|] == e.name;
    RunOnValue(buf, p, e.value, next);
  }

  lemma HoldsOne(buf: string, p: int)
    requires At(buf, p) != '\0'
    ensures Holds(buf, p, [At(buf, p)])
  {
  }

  lemma ValueBytes(buf: string, p: nat, value: string)
    requires GoodValue(value) && Holds(buf, p, " " + value + "\n")
    ensures Holds(buf, p + 1, value) && Holds(buf, p + 1, value + "\n") && '\0' !in value
    ensures At(buf, p) == ' ' && !IsSpace(At(buf, p + 1)) && !IsSpace(At(buf, p + |value|)) && At(buf, p + |value| + 1) == '\n'
  {
    hide Holds;
    var t := " " + value + "\n";
    HoldsAt(buf, p, t, 0);
    HoldsAt(buf, p, t, 1);
    HoldsAt(buf, p, t, |value|);
    HoldsAt(buf, p, t, |value| + 1);
    assert t == " " + (value + "\n");
    HoldsSplit(buf, p, " ", value + "\n");
    HoldsSplit(buf, p + 1, value, "\n");
  }

  lemma RunOnValue(buf: string, p: nat, value: string, next: char)
    requires GoodValue(value) && Holds(buf, p, " " + value + "\n")
    requires next == At(buf, p + |value| + 2) != '\0'
    ensures FirstSolid(buf, p) == p + 1
    ensures var last := LastSolid(buf, p + |value| + 2);
      Strndup(buf, p + 1, last - p) == if IsSpace(next) then value else value + "\n" + [next]
  {
    hide FirstSolid, LastSolid, Strndup, Holds;
    ValueBytes(buf, p, value);
    hide GoodValue, At;
    FirstSolidIs(buf, p, p + 1);
    if IsSpace(next) {
      LastSolidIs(buf, p + |value| + 2, p + |value|);
      StrndupHolds(buf, p + 1, value);
    } else {
      LastSolidIs(buf, p + |value| + 2, p + |value| + 2);
      HoldsSplit(buf, p + 1, value + "\n", [next]);
      HoldsOne(buf, p + |value| + 2);
      StrndupHolds(buf, p + 1, value + "\n" + [next]);
    }
  }

  // ------------------------------------------------------- http_header_parse

  // The last position up to p that holds no CR.
  function SkipCrBack(buf: string, p: int): (q: int)
    ensures q <= p && At(buf, q) != '\r'
    ensures forall i :: q < i <= p ==> At(buf, i) == '\r'
    decreases p
  {
    if At(buf, p) == '\r' then SkipCrBack(buf, p - 1) else p
  }

  function Listed(entry: Option<Entry>): seq<Entry> {
    if entry.Some? then [entry.value] else []
  }

  // The entries of the lines from cur on; a line of at most one byte ends the header.
  function Entries(buf: string, cur: nat, stop: nat, size: nat): Option<seq<Entry>>
    decreases stop - cur
  {
    if cur >= stop then Some([]) else
      var nl := MemChr(buf, cur, '\n', size);
      if nl == -1 then None else
        var end := SkipCrBack(buf, nl - 1);
        if cur >= end then Some([]) else
          var rest := Entries(buf, nl + 1, stop, size);
          if rest.None? then None else Some(Listed(EntryAt(buf, cur, end - cur + 1)) + rest.value)
  }

  // The last byte before stop is a LF, so no memchr in the loop comes back empty.
  lemma {:induction false} EntriesFound(buf: string, cur: nat, stop: nat, size: nat)
    requires stop <= cur + size && (cur < stop ==> At(buf, stop - 1) == '\n')
    ensures Entries(buf, cur, stop, size).Some?
    decreases stop - cur
  {
    if cur < stop {
      var nl := MemChr(buf, cur, '\n', size);
      assert nl != -1;
      EntriesFound(buf, nl + 1, stop, size);
    }
  }

  // What the lines from cur on contribute, after acc.
  ghost predicate Completes(buf: string, cur: nat, stop: nat, size: nat, acc: seq<Entry>, all: seq<Entry>) {
    var rest := Entries(buf, cur, stop, size);
    rest.Some? && acc + rest.value == all
  }

  lemma LineCompletes(buf: string, cur: nat, stop: nat, size: nat, acc: seq<Entry>, all: seq<Entry>)
    requires cur < stop && Completes(buf, cur, stop, size, acc, all)
    ensures var nl := MemChr(buf, cur, '\n', size);
      && nl != -1
      && (cur >= SkipCrBack(buf, nl - 1) ==> acc == all)
      && (cur < SkipCrBack(buf, nl - 1) ==>
            var entry := EntryAt(buf, cur, SkipCrBack(buf, nl - 1) - cur + 1);
            Completes(buf, nl + 1, stop, size, acc + Listed(entry), all))
  {
    hide EntryAt;
    assert acc + [] == acc;
    var nl := MemChr(buf, cur, '\n', size);
    var end := SkipCrBack(buf, nl - 1);
    if cur < end {
      var entry := EntryAt(buf, cur, end - cur + 1);
      var rest := Entries(buf, nl + 1, stop, size).value;
      assert acc + (Listed(entry) + rest) == (acc + Listed(entry)) + rest;
    }
  }

  lemma StopCompletes(buf: string, cur: nat, stop: nat, size: nat, acc: seq<Entry>, all: seq<Entry>)
    requires cur >= stop && Completes(buf, cur, stop, size, acc, all)
    ensures acc == all
  {
    assert acc + [] == acc;
  }

  method HttpHeaderParse(buf: string, base: nat, size: nat) returns (h: Option<seq<Entry>>)
    ensures forall headerSize: nat :: IsEnd(buf, base, size, headerSize) ==>
      h == if headerSize == 0 then None else Entries(buf, base, base + headerSize, headerSize)
    ensures h.Some? <==> !IsEnd(buf, base, size, 0)
  {
    var headerSize := HeadersEnd(buf, base, size);
    EndIsUnique(buf, base, size, headerSize);
    if headerSize == 0 {
      return None;
    }
    EntriesFound(buf, base, base + headerSize, headerSize);
    var entries := HeaderLines(buf, base, headerSize);
    h := Some(entries);
  }

  // The loop of http_header_parse.
  method HeaderLines(buf: string, base: nat, size: nat) returns (entries: seq<Entry>)
    requires Entries(buf, base, base + size, size).Some?
    ensures entries == Entries(buf, base, base + size, size).value
  {
    hide EntryAt, Entries, SkipCrBack, MemChr, At;
    ghost var stop, all := base + size, Entries(buf, base, base + size, size).value;
    entries := [];
    var cur := base;
    assert entries + all == all;
    while cur - base < size
      invariant cur >= base && Completes(buf, cur, stop, size, entries, all)
      decreases stop - cur
    {
      LineCompletes(buf, cur, stop, size, entries, all);
      var start := cur;
      var end := MemChr(buf, start, '\n', size);
      cur := end + 1;
      end := LineEnd(buf, end - 1);
      if start >= end {
        return;
      }
      var entry := HeaderEntryCreate(buf, start, end - start + 1);
      if entry.Some? {
        entries := entries + [entry.value];
      } else {
        assert entries + [] == entries;
      }
    }
    StopCompletes(buf, cur, stop, size, entries, all);
  }

  // The inner loop of http_header_parse.
  method LineEnd(buf: string, p: int) returns (end: int)
    ensures end == SkipCrBack(buf, p)
  {
    end := p;
    while At(buf, end) == '\r'
      invariant end <= p && SkipCrBack(buf, p) == SkipCrBack(buf, end)
      decreases end
    {
      end := end - 1;
    }
  }

  lemma EndIsUnique(buf: string, base: nat, size: nat, e: nat)
    requires IsEnd(buf, base, size, e)
    ensures forall e': nat :: IsEnd(buf, base, size, e') ==> e' == e
  {
    forall e': nat | IsEnd(buf, base, size, e')
      ensures e' == e
    {
    }
  }

  // ----------------------------------------------------------- printed text

  ghost predicate AllGood(es: seq<Entry>) {
    forall e :: e in es ==> Good(e)
  }

  function Block(es: seq<Entry>): string {
    if es == [] then "" else Text(es[0]) + "\r\n" + Block(es[1..])
  }

  // A non-empty line without LF, closed by CRLF.
  predicate IsLine(buf: string, p: int, t: string) {
    t != "" && '\n' !in t && Holds(buf, p, t + "\r\n")
  }

  lemma LineBytes(buf: string, p: int, t: string)
    requires IsLine(buf, p, t)
    ensures forall i: int :: p <= i <= p + |t| ==> At(buf, i) != '\n'
    ensures At(buf, p + |t|) == '\r' && At(buf, p + |t| + 1) == '\n'
  {
    forall i: int | p <= i <= p + |t|
      ensures At(buf, i) != '\n'
    {
      HoldsAt(buf, p, t + "\r\n", i - p);
      if i < p + |t| {
        assert t[i - p] in t;
      }
    }
    HoldsAt(buf, p, t + "\r\n", |t|);
    HoldsAt(buf, p, t + "\r\n", |t| + 1);
  }

  lemma LineHasNoBlank(buf: string, p: int, t: string, e: nat)
    requires IsLine(buf, p, t) && e <= |t| + 2
    ensures !Blank(buf, p, e)
  {
    hide IsLine, At;
    LineBytes(buf, p, t);
    LineNotEmpty(buf, p, t);
  }

  lemma LineNotEmpty(buf: string, p: int, t: string)
    requires IsLine(buf, p, t)
    ensures |t| > 0
  {
  }

  // Behind a LF, empty lines are counted alike from the start and from there.
  lemma BlankShift(buf: string, base: int, m: nat, e: nat)
    requires m >= 1 && At(buf, base + m - 1) == '\n'
    ensures Blank(buf, base, m + e) <==> Blank(buf, base + m, e) || (e == 0 && Blank(buf, base, m))
  {
  }

  // A line in front moves the end of the header by its length.
  lemma EndAfterLine(buf: string, base: int, t: string, l: nat, e: nat)
    requires IsLine(buf, base, t) && IsEnd(buf, base + |t| + 2, l, e) && e > 0
    ensures IsEnd(buf, base, |t| + 2 + l, |t| + 2 + e)
  {
    hide IsLine, At, Blank;
    var m := |t| + 2;
    LineBytes(buf, base, t);
    BlankShift(buf, base, m, e);
    forall k: nat | k < m + e
      ensures !Blank(buf, base, k)
    {
      if k <= m {
        LineHasNoBlank(buf, base, t, k);
      } else {
        BlankShift(buf, base, m, k - m);
      }
    }
  }

  lemma EndOfEmptyBlock(buf: string, base: int)
    requires Holds(buf, base, "\r\n")
    ensures IsEnd(buf, base, 2, 2)
  {
    HoldsAt(buf, base, "\r\n", 0);
    HoldsAt(buf, base, "\r\n", 1);
  }

  lemma TextIsLine(buf: string, p: int, e: Entry, rest: string)
    requires Good(e) && Holds(buf, p, Text(e) + "\r\n" + rest)
    ensures IsLine(buf, p, Text(e)) && |Text(e)| >= 4 && Text(e)[|Text(e)| - 1] != '\r'
    ensures Holds(buf, p + |Text(e)| + 2, rest)
  {
    HoldsSplit(buf, p, Text(e) + "\r\n", rest);
    forall c | c in Text(e)
      ensures c != '\n'
    {
      if c in e.name {
      } else if c in e.value {
      }
    }
    assert e.value[|e.value| - 1] in e.value;
  }

  // A printed block of header lines ends at its own empty line, and nowhere before.
  lemma {:induction false} EndOfBlock(buf: string, base: int, es: seq<Entry>)
    requires AllGood(es) && Holds(buf, base, Block(es) + "\r\n")
    ensures IsEnd(buf, base, |Block(es)| + 2, |Block(es)| + 2)
    decreases es
  {
    hide IsEnd, Holds, IsLine;
    if es == [] {
      assert Block(es) + "\r\n" == "\r\n";
      EndOfEmptyBlock(buf, base);
    } else {
      var t := Text(es[0]);
      assert Block(es) + "\r\n" == t + "\r\n" + (Block(es[1..]) + "\r\n");
      TextIsLine(buf, base, es[0], Block(es[1..]) + "\r\n");
      EndOfBlock(buf, base + |t| + 2, es[1..]);
      EndAfterLine(buf, base, t, |Block(es[1..])| + 2, |Block(es[1..])| + 2);
    }
  }

  lemma LineScan(buf: string, cur: nat, t: string, size: nat)
    requires IsLine(buf, cur, t) && t[|t| - 1] != '\r' && size >= |t| + 2
    ensures MemChr(buf, cur, '\n', size) == cur + |t| + 1
    ensures SkipCrBack(buf, cur + |t|) == cur + |t| - 1
  {
    LineBytes(buf, cur, t);
    HoldsAt(buf, cur, t + "\r\n", |t| - 1);
    MemChrIs(buf, cur, '\n', size, cur + |t| + 1);
  }

  lemma NoMoreLines(buf: string, cur: nat, size: nat)
    requires Holds(buf, cur, "\r\n") && At(buf, cur - 1) != '\r' && size >= 2
    ensures Entries(buf, cur, cur + 2, size) == Some([])
  {
    HoldsAt(buf, cur, "\r\n", 0);
    HoldsAt(buf, cur, "\r\n", 1);
    MemChrIs(buf, cur, '\n', size, cur + 1);
  }

  // Parsing a printed block gives back its entries, in order.
  lemma {:induction false} EntriesOfBlock(buf: string, cur: nat, size: nat, es: seq<Entry>)
    requires AllGood(es) && Holds(buf, cur, Block(es) + "\r\n")
    requires At(buf, cur - 1) != '\r' && size >= |Block(es)| + 2
    ensures Entries(buf, cur, cur + |Block(es)| + 2, size) == Some(es)
    decreases es
  {
    hide Holds, IsLine, EntryAt, SkipCrBack, MemChr, At, Good, Text;
    if es == [] {
      assert Block(es) + "\r\n" == "\r\n";
      NoMoreLines(buf, cur, size);
    } else {
      var t := Text(es[0]);
      assert Block(es) + "\r\n" == t + "\r\n" + (Block(es[1..]) + "\r\n");
      HoldsSplit(buf, cur, t + "\r\n", Block(es[1..]) + "\r\n");
      TextIsLine(buf, cur, es[0], Block(es[1..]) + "\r\n");
      LineBytes(buf, cur, t);
      LineScan(buf, cur, t, size);
      EntryOfText(buf, cur, es[0]);
      EntriesOfBlock(buf, cur + |t| + 2, size, es[1..]);
      assert [es[0]] + es[1..] == es;
    }
  }
}
