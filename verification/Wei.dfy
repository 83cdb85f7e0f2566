/** Wei amounts from the payer daemon's big-endian bytes to the ETH text the
    console shows. */
module Wei {
  import opened Prelude
  import opened Digits

  // -------------------------------------------------------------- the daemon side

  /** `buf.toString("hex")`. */
  function Hex(buf: seq<byte>): string {
    if buf == [] then [] else Hex(buf[..|buf| - 1]) + [DigitChar(buf[|buf| - 1] / 16), DigitChar(buf[|buf| - 1] % 16)]
  }

  /** The number a big-endian byte string denotes. */
  function BigEndian(buf: seq<byte>): nat {
    if buf == [] then 0 else BigEndian(buf[..|buf| - 1]) * 256 + buf[|buf| - 1]
  }

  function BigEndianBytesToDecimal(buf: seq<byte>): string {
    if |buf| == 0 then "0"
    else
      HexDenotes(buf);
      ToDecimal(ParseBigInt("0x" + Hex(buf)).value)
  }

  lemma {:induction false} HexValue(buf: seq<byte>)
    ensures |Hex(buf)| == 2 * |buf| && AllDigits(Hex(buf), 16)
    ensures Value(Hex(buf), 16) == BigEndian(buf)
    decreases |buf|
  {
    if buf != [] {
      var init, b := buf[..|buf| - 1], buf[|buf| - 1];
      HexValue(init);
      var hi, lo := DigitChar(b / 16), DigitChar(b % 16);
      assert Hex(buf)[..|Hex(buf)| - 1] == Hex(init) + [hi];
      assert (Hex(init) + [hi])[..|Hex(init)|] == Hex(init);
      assert DigitValue(hi) == b / 16 && DigitValue(lo) == b % 16;
    }
  }

  /** Two digits a byte, the first byte first. */
  lemma {:induction false} HexDigits(buf: seq<byte>, i: nat)
    requires i < |buf|
    ensures |Hex(buf)| == 2 * |buf|
    ensures Hex(buf)[2 * i] == "0123456789abcdef"[buf[i] / 16] && Hex(buf)[2 * i + 1] == "0123456789abcdef"[buf[i] % 16]
    decreases |buf|
  {
    DigitsOfChars();
    HexValue(buf);
    HexValue(buf[..|buf| - 1]);
    if i < |buf| - 1 {
      HexDigits(buf[..|buf| - 1], i);
    }
  }

  /** The first byte counts most. */
  lemma {:induction false} BigEndianIs(first: byte, rest: seq<byte>)
    ensures BigEndian([first]) == first
    ensures BigEndian([first] + rest) == first * Pow(256, |rest|) + BigEndian(rest)
    decreases |rest|
  {
    assert [first][..0] == [];
    if rest == [] {
      assert [first] + rest == [first];
    } else {
      var init := rest[..|rest| - 1];
      assert ([first] + rest)[..|rest|] == [first] + init;
      BigEndianIs(first, init);
      Distribute(first, Pow(256, |init|), BigEndian(init), 256);
    }
  }

  lemma HexDenotes(buf: seq<byte>)
    requires |buf| > 0
    ensures ParseBigInt("0x" + Hex(buf)) == Some(BigEndian(buf))
  {
    HexValue(buf);
    assert ("0x" + Hex(buf))[..2] == "0x";
    assert ("0x" + Hex(buf))[2..] == Hex(buf);
  }

  /** The daemon's bytes come out as the decimal numeral of their value. */
  lemma BytesPrintTheirValue(buf: seq<byte>)
    ensures BigEndianBytesToDecimal(buf) == ToDecimal(BigEndian(buf))
  {
    if |buf| > 0 {
      HexDenotes(buf);
    }
  }

  // ------------------------------------------------------------- the browser side

  /** `v / 1_000_000_000_000_000_000` and `v % 1_000_000_000_000_000_000` on big integers, which truncate toward zero. */
  function WholeEth(v: int): int {
    if v >= 0 then v / 1_000_000_000_000_000_000 else -((-v) / 1_000_000_000_000_000_000)
  }

  function RestWei(v: int): int {
    if v >= 0 then v % 1_000_000_000_000_000_000 else -((-v) % 1_000_000_000_000_000_000)
  }

  /** `s.slice(from, to)` for non-negative bounds. */
  function Slice(s: string, from: nat, to: nat): string
    requires from <= to
  {
    var lo := if from < |s| then from else |s|;
    var hi := if to < |s| then to else |s|;
    s[lo..hi]
  }

  /** `s.replace(/0+$/, "")`. */
  function StripZeros(s: string): string {
    if |s| > 0 && s[|s| - 1] == '0' then StripZeros(s[..|s| - 1]) else s
  }

  function FormatWei(wei: Option<string>): string {
    if wei.None? || wei.value == "" then "—"
    else match ParseBigInt(wei.value)
         case None => wei.value
         case Some(v) =>
           Show(WholeEth(v), RestWei(v))
  }

  function Show(whole: int, frac: int): string {
    if frac == 0 then ToDecimalInt(whole) + " ETH"
    else
      var fracStr := StripZeros(Slice(ToDecimalInt(frac + 1_000_000_000_000_000_000), 1, 7));
      ToDecimalInt(whole) + (if fracStr != "" then "." + fracStr else "") + " ETH"
  }

  /** A missing amount is a dash, and text that is no number is shown as it is. */
  lemma OtherTexts(wei: Option<string>)
    ensures wei == None || wei == Some("") ==> FormatWei(wei) == "—"
    ensures wei.Some? && wei.value != "" && ParseBigInt(wei.value) == None ==> FormatWei(wei) == wei.value
  {
  }

  /** Any amount, negative ones too, splits into whole ETH and a rest of the same sign. */
  lemma SplitsTowardZero(v: int)
    ensures 1_000_000_000_000_000_000 * WholeEth(v) + RestWei(v) == v
    ensures -1_000_000_000_000_000_000 < RestWei(v) < 1_000_000_000_000_000_000
    ensures (RestWei(v) > 0 ==> v > 0) && (RestWei(v) < 0 ==> v < 0)
  {
  }

  // ---------------------------------------------------------- reading it back

  function IndexOf(s: string, c: char): (i: nat)
    ensures i <= |s| && (i < |s| ==> s[i] == c) && forall j :: 0 <= j < i ==> s[j] != c
  {
    if s == [] then 0 else if s[0] == c then 0 else 1 + IndexOf(s[1..], c)
  }

  /** How a reader takes a shown number: digits, optionally a point and one to
      six more digits; the result counts millionths. */
  function ReadNumber(number: string): Option<nat> {
    var dot := IndexOf(number, '.');
    if dot == |number| then ReadParts(number, "")
    else if dot + 1 == |number| then None
    else ReadParts(number[..dot], number[dot + 1..])
  }

  function ReadParts(whole: string, frac: string): Option<nat> {
    if whole == "" || !AllDigits(whole, 10) || !AllDigits(frac, 10) || |frac| > 6 then None
    else Some(Value(whole, 10) * 1_000_000 + Value(frac, 10) * Pow(10, 6 - |frac|))
  }

  function ShownMillionths(text: string): Option<nat> {
    if |text| < 4 || text[|text| - 4..] != " ETH" then None else ReadNumber(text[..|text| - 4])
  }

  predicate EndsInFractionalZero(text: string) {
    var dot := IndexOf(text, '.');
    dot < |text| && |text| >= 5 && text[|text| - 5] == '0'
  }

  lemma {:induction false} StripZerosValue(s: string)
    ensures |StripZeros(s)| <= |s|
    ensures StripZeros(s) == s[..|StripZeros(s)|]
    ensures Value(s, 10) == Value(StripZeros(s), 10) * Pow(10, |s| - |StripZeros(s)|)
    ensures |StripZeros(s)| > 0 ==> StripZeros(s)[|StripZeros(s)| - 1] != '0'
    decreases |s|
  {
    if |s| > 0 && s[|s| - 1] == '0' {
      var t := s[..|s| - 1];
      StripZerosValue(t);
      var u := StripZeros(s);
      assert u == StripZeros(t) == t[..|u|] == s[..|u|];
      assert Pow(10, |s| - |u|) == 10 * Pow(10, |t| - |u|);
      assert Value(s, 10) == Value(t, 10) * 10;
      Rearrange(Value(u, 10), Pow(10, |t| - |u|));
    }
  }

  lemma Rearrange(x: int, p: int)
    ensures x * p * 10 == x * (10 * p)
  {
  }

  lemma PowersOfTen()
    ensures Pow(10, 6) == 1_000_000 && Pow(10, 12) == 1_000_000_000_000 && Pow(10, 18) == 1_000_000_000_000_000_000 && Pow(10, 19) == 10_000_000_000_000_000_000
  {
    assert Pow(10, 3) == 1000;
    assert Pow(10, 6) == 1_000_000;
    assert Pow(10, 9) == 1_000_000_000;
    assert Pow(10, 12) == 1_000_000_000_000;
    assert Pow(10, 15) == 1_000_000_000_000_000;
    assert Pow(10, 18) == 1_000_000_000_000_000_000;
  }

  /** The first seven digits of a nineteen-digit numeral that starts with 1: dropping
      the 1 leaves six digits. */
  lemma DropLeadingOne(head: string, n: nat)
    requires |head| == 7 && AllDigits(head, 10) && Value(head, 10) == 1_000_000 + n && n < 1_000_000
    ensures AllDigits(head[1..], 10) && Value(head[1..], 10) == n
  {
    hide Pow;
    var f := head[1..];
    assert head == [head[0]] + f;
    ValueConcat([head[0]], f, 10);
    ValueSnoc([], head[0]);
    assert [] + [head[0]] == [head[0]];
    ValueBound(f);
    PowersOfTen();
    assert DigitValue(head[0]) == 1;
  }

  /** The remainder plus one ETH always prints as nineteen digits, so the slice
      is exactly its first six fractional digits. */
  lemma FractionDigits(frac: nat)
    requires frac < 1_000_000_000_000_000_000
    ensures var f := Slice(ToDecimal(frac + 1_000_000_000_000_000_000), 1, 7);
            && |ToDecimal(frac + 1_000_000_000_000_000_000)| == 19
            && |f| == 6 && AllDigits(f, 10) && Value(f, 10) == frac / 1_000_000_000_000
  {
    hide ToDecimal, Value, Pow;
    PowersOfTen();
    var n := frac + 1_000_000_000_000_000_000;
    var s := ToDecimal(n);
    DecimalLength(n, 19);
    DecimalPrefix(n, 12);
    assert n / 1_000_000_000_000 == 1_000_000 + frac / 1_000_000_000_000;
    ToDecimalReads(n / 1_000_000_000_000);
    DropLeadingOne(s[..7], frac / 1_000_000_000_000);
    assert Slice(s, 1, 7) == s[..7][1..];
  }

  lemma {:induction false} ValueBound(s: string)
    requires AllDigits(s, 10)
    ensures Value(s, 10) < Pow(10, |s|)
    decreases |s|
  {
    if s != [] {
      ValueBound(s[..|s| - 1]);
    }
  }

  lemma NoDotInDigits(s: string)
    requires AllDigits(s, 10)
    ensures forall i :: 0 <= i < |s| ==> s[i] != '.'
  {
    forall i | 0 <= i < |s| ensures s[i] != '.' {
      assert DigitValue(s[i]) < 10;
    }
  }

  lemma DotPosition(whole: string, rest: string)
    requires forall i :: 0 <= i < |whole| ==> whole[i] != '.'
    requires forall i :: 0 <= i < |rest| ==> i == 0 || rest[i] != '.'
    ensures IndexOf(whole + rest, '.') == if rest != [] && rest[0] == '.' then |whole| else |whole + rest|
  {
    var t, i := whole + rest, IndexOf(whole + rest, '.');
    if rest != [] && rest[0] == '.' {
      assert t[|whole|] == '.';
    } else if i < |t| {
      assert t[i] == '.';
    }
  }

  function Numeral(w: string, f: string): string {
    w + (if f != "" then "." + f else "")
  }

  /** A numeral with an optional fraction is read as its two parts. */
  lemma ReadsNumeral(w: string, f: string)
    requires AllDigits(w, 10) && AllDigits(f, 10)
    ensures ReadNumber(Numeral(w, f)) == ReadParts(w, f)
  {
    hide AllDigits, IndexOf, ReadParts;
    NoDotInDigits(w);
    NoDotInDigits(f);
    DotPosition(w, if f != "" then "." + f else "");
    if f != "" {
      assert Numeral(w, f)[..|w|] == w && Numeral(w, f)[|w| + 1..] == f;
    } else {
      assert Numeral(w, f) == w;
    }
  }

  lemma ReadsText(number: string)
    ensures ShownMillionths(number + " ETH") == ReadNumber(number)
  {
    var text := number + " ETH";
    assert text[|text| - 4..] == " ETH" && text[..|text| - 4] == number;
  }

  lemma NoTrailingZero(w: string, f: string)
    requires AllDigits(w, 10) && (f != "" ==> f[|f| - 1] != '0')
    ensures !EndsInFractionalZero(Numeral(w, f) + " ETH")
  {
    NoDotInDigits(w);
    var text := Numeral(w, f) + " ETH";
    if f == "" {
      assert text == w + " ETH";
      DotPosition(w, " ETH");
    } else {
      assert text[|text| - 5] == f[|f| - 1];
    }
  }

  lemma FormatIsShow(v: nat) returns (whole: nat, frac: nat)
    ensures FormatWei(Some(ToDecimal(v))) == Show(whole, frac)
    ensures v == whole * 1_000_000_000_000_000_000 + frac && frac < 1_000_000_000_000_000_000
  {
    ParsePrinted(v);
    ToDecimalReads(v);
    whole, frac := v / 1_000_000_000_000_000_000, v % 1_000_000_000_000_000_000;
  }

  /** What is shown for a whole part and a remainder. */
  lemma ShowParts(whole: nat, frac: nat) returns (f: string)
    requires frac < 1_000_000_000_000_000_000
    ensures Show(whole, frac) == Numeral(ToDecimal(whole), f) + " ETH"
    ensures AllDigits(f, 10) && |f| <= 6 && (f != "" ==> f[|f| - 1] != '0')
    ensures Value(f, 10) * Pow(10, 6 - |f|) == frac / 1_000_000_000_000
  {
    hide ToDecimal, StripZeros, Slice;
    if frac == 0 {
      f := "";
      assert Numeral(ToDecimal(whole), f) == ToDecimal(whole);
    } else {
      var digits := Slice(ToDecimal(frac + 1_000_000_000_000_000_000), 1, 7);
      FractionDigits(frac);
      StripZerosValue(digits);
      f := StripZeros(digits);
    }
  }

  lemma ReadsFormatted(w: string, f: string)
    requires AllDigits(w, 10) && AllDigits(f, 10)
    ensures ShownMillionths(Numeral(w, f) + " ETH") == ReadParts(w, f)
  {
    ReadsText(Numeral(w, f));
    ReadsNumeral(w, f);
  }

  lemma ShowReads(v: nat, whole: nat, frac: nat)
    requires v == whole * 1_000_000_000_000_000_000 + frac && frac < 1_000_000_000_000_000_000
    ensures ShownMillionths(Show(whole, frac)) == Some(v / 1_000_000_000_000)
    ensures !EndsInFractionalZero(Show(whole, frac))
  {
    var f := ShowParts(whole, frac);
    ToDecimalReads(whole);
    MillionthsSplit(v, whole, frac);
    ReadsFormatted(ToDecimal(whole), f);
    NoTrailingZero(ToDecimal(whole), f);
  }

  lemma MillionthsSplit(v: nat, whole: nat, frac: nat)
    requires v == whole * 1_000_000_000_000_000_000 + frac
    ensures v / 1_000_000_000_000 == whole * 1_000_000 + frac / 1_000_000_000_000
  {
  }

  /** For every non-negative amount the shown text reads back as that amount
      rounded down to a millionth of an ETH, with no trailing fractional zero. */
  lemma FormatShowsTheAmount(v: nat)
    ensures ShownMillionths(FormatWei(Some(ToDecimal(v)))) == Some(v / 1_000_000_000_000)
    ensures !EndsInFractionalZero(FormatWei(Some(ToDecimal(v))))
  {
    var whole, frac := FormatIsShow(v);
    ShowReads(v, whole, frac);
  }

  /** End to end: whatever bytes the daemon sends, the console shows the amount
      `d` millionths with `0 <= v - d * 10^12 < 10^12`. */
  lemma DaemonBytesToShownAmount(buf: seq<byte>) returns (d: nat)
    ensures ShownMillionths(FormatWei(Some(BigEndianBytesToDecimal(buf)))) == Some(d)
    ensures 0 <= BigEndian(buf) - d * 1_000_000_000_000 < 1_000_000_000_000
    ensures !EndsInFractionalZero(FormatWei(Some(BigEndianBytesToDecimal(buf))))
  {
    BytesPrintTheirValue(buf);
    FormatShowsTheAmount(BigEndian(buf));
    d := BigEndian(buf) / 1_000_000_000_000;
  }
}
