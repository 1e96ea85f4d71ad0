// Replies that a server may well send: the statements about failing runs speak of something.
module Samples {
  import opened Common
  import opened HttpHeader
  import opened HttpReply

  // An ordinary head, with or without a length.
  function Sample(length: Option<nat>): Head {
    Head(1, 1, 200, "OK", if length.None? then [] else [Entry("Content-Length", Decimal(length.value))])
  }

  const STAT := "TCP_MISS"
  const CACHE := "-"

  lemma SampleIsPrintable(length: Option<nat>)
    ensures Printable(Sample(length), STAT, CACHE)
    ensures ContentLength(Marked(Sample(length), STAT, CACHE)) == length
  {
    hide GoodName, GoodValue, SameText, Decimal, ViaValue, Atoi;
    var es, via := Marked(Sample(length), STAT, CACHE), Entry("Via", ViaValue(STAT, CACHE));
    ViaIsGood();
    if length.Some? {
      LengthIsGood(length.value);
      assert es == [Entry("Content-Length", Decimal(length.value)), via];
      ContentLengthRead(es, 0, length.value);
    } else {
      assert es == [via] && es[1..] == [];
    }
  }

  lemma ViaIsGood()
    ensures Good(Entry("Via", ViaValue(STAT, CACHE))) && !SameText("Via", "Content-Length")
  {
    hide GoodValue, ViaValue;
    ViaValueIsGood();
  }

  lemma ViaValueIsGood()
    ensures GoodValue(ViaValue(STAT, CACHE))
  {
    var v := ViaValue(STAT, CACHE);
    assert |v| == 25 && v[0] == 'T' && v[24] == 'c';
  }

  lemma LengthIsGood(n: nat)
    ensures Good(Entry("Content-Length", Decimal(n))) && SameText("Content-Length", "Content-Length")
  {
    NumberIsGood(Decimal(n));
    assert GoodName("Content-Length");
  }

  lemma NumberIsGood(s: string)
    requires s != "" && forall c :: c in s ==> '0' <= c <= '9'
    ensures GoodValue(s)
  {
    assert s[0] in s && s[|s| - 1] in s;
  }

  lemma SampleSize(length: Option<nat>)
    ensures |Printed(Sample(length), STAT, CACHE)| == 51 + (if length.None? then 0 else 18 + |Decimal(length.value)|)
  {
    var es := Marked(Sample(length), STAT, CACHE);
    var via := Entry("Via", ViaValue(STAT, CACHE));
    assert Decimal(1) == "1" && Decimal(20) == "20" && Decimal(200) == "200";
    assert Block([via]) == Text(via) + "\r\n" + Block([]);
    if length.Some? {
      assert es == [Entry("Content-Length", Decimal(length.value)), via];
      assert es[1..] == [via];
    } else {
      assert es == [via];
    }
  }

  lemma SixDigits(n: nat)
    requires 100000 <= n < 1000000
    ensures |Decimal(n)| == 6
  {
    assert |Decimal(n / 100000)| == 1;
    assert |Decimal(n / 10000)| == 2;
    assert |Decimal(n / 1000)| == 3;
    assert |Decimal(n / 100)| == 4;
    assert |Decimal(n / 10)| == 5;
  }
}
