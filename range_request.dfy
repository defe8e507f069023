/**
 * The `Range` request header that `download_chunk` sends, and what it asks
 * of the server under section 14.1.2 of RFC 9110 (byte ranges).
 */
module RangeRequest {
  import opened Results
  import opened ByteSeq
  import opened RangePlan

  predicate IsDigit(c: char) {
    '0' <= c <= '9'
  }

  predicate AllDigits(s: string) {
    forall i :: 0 <= i < |s| ==> IsDigit(s[i])
  }

  function DigitChar(d: int): (c: char)
    requires 0 <= d < 10
    ensures IsDigit(c) && c as int - '0' as int == d
  {
    ('0' as int + d) as char
  }

  /** Decimal digits of a natural number, no leading zeros: Python's `str` of a non-negative int. */
  function NatText(n: nat): (s: string)
    ensures |s| >= 1 && AllDigits(s)
    ensures |s| > 1 ==> s[0] != '0'
    decreases n
  {
    if n < 10 then [DigitChar(n)] else NatText(n / 10) + [DigitChar(n % 10)]
  }

  /** The value of a string of decimal digits. */
  function DigitsValue(s: string): nat
    requires AllDigits(s)
  {
    if s == [] then 0 else DigitsValue(s[..|s| - 1]) * 10 + (s[|s| - 1] as int - '0' as int)
  }

  /** Reading back the digits of a number gives the number. */
  lemma {:induction false} NatTextRoundTrip(n: nat)
    ensures DigitsValue(NatText(n)) == n
    decreases n
  {
    var s := NatText(n);
    if n < 10 {
      assert s[..0] == [];
    } else {
      assert s[..|s| - 1] == NatText(n / 10);
      NatTextRoundTrip(n / 10);
    }
  }

  /**
   * Python's `str` of any int, as an f-string field renders it: a minus sign
   * exactly when the number is negative, then the decimal digits of its
   * magnitude.
   */
  function IntText(x: int): (s: string)
    ensures |s| >= 1 && (s[0] == '-' <==> x < 0)
    ensures x >= 0 ==> AllDigits(s) && DigitsValue(s) == x
    ensures x < 0 ==> AllDigits(s[1..]) && DigitsValue(s[1..]) == -x
  {
    if x < 0 then
      NatTextRoundTrip(-x);
      assert ("-" + NatText(-x))[1..] == NatText(-x);
      "-" + NatText(-x)
    else
      NatTextRoundTrip(x);
      NatText(x)
  }

  /** The range unit prefix of a byte-range header value. */
  const BytesUnit: string := "bytes="

  /**
   * The header value `bytes=<start>-<end>` built by the f-string. For a
   * range with `0 <= start <= end` a server reads it back as exactly that
   * range.
   */
  function RangeHeader(start: int, end: int): (h: string)
    ensures 0 <= start <= end ==> ParseRange(h) == Some(ByteRange(start, end))
  {
    HeaderRoundTrip(start, end);
    BytesUnit + IntText(start) + "-" + IntText(end)
  }

  lemma RangeHeaderExample()
    ensures RangeHeader(40, 99) == "bytes=40-99"
  {
    assert NatText(40) == "40";
    assert NatText(99) == "99";
  }

  /** The position of the first `-` in `s`, or `|s|` when there is none. */
  function FirstDash(s: string): (k: nat)
    ensures k <= |s|
    ensures k < |s| ==> s[k] == '-'
    ensures forall i :: 0 <= i < k ==> s[i] != '-'
  {
    if s == [] then 0 else if s[0] == '-' then 0 else 1 + FirstDash(s[1..])
  }

  /**
   * How a server reads a single int-range `bytes=<first>-<last>` (section
   * 14.1.2 of RFC 9110): both positions are decimal digits, and a range
   * whose last position is below its first is invalid.
   */
  function ParseRange(h: string): (r: Option<ByteRange>)
    ensures r.Some? ==> 0 <= r.value.start <= r.value.end
  {
    if |h| < |BytesUnit| || h[..|BytesUnit|] != BytesUnit then None
    else
      var spec := h[|BytesUnit|..];
      var dash := FirstDash(spec);
      if dash == |spec| then None
      else
        var first, last := spec[..dash], spec[dash + 1..];
        if first == [] || last == [] || !AllDigits(first) || !AllDigits(last) then None
        else if DigitsValue(first) > DigitsValue(last) then None
        else Some(ByteRange(DigitsValue(first), DigitsValue(last)))
  }

  /** The first dash after a run of digits is the one that follows them. */
  lemma FirstDashAfterDigits(a: string, b: string)
    requires AllDigits(a)
    ensures FirstDash(a + "-" + b) == |a|
  {
    var s := a + "-" + b;
    assert s[|a|] == '-';
    assert forall i :: 0 <= i < |a| ==> s[i] == a[i];
  }

  /** The header text built for a valid range is read back by the server as that very range. */
  lemma HeaderRoundTrip(start: int, end: int)
    ensures 0 <= start <= end ==>
      ParseRange(BytesUnit + IntText(start) + "-" + IntText(end)) == Some(ByteRange(start, end))
  {
    if 0 <= start <= end {
      var a, b := IntText(start), IntText(end);
      var h := BytesUnit + a + "-" + b;
      assert h == BytesUnit + (a + "-" + b);
      var spec := h[|BytesUnit|..];
      assert h[..|BytesUnit|] == BytesUnit;
      assert spec == a + "-" + b;
      FirstDashAfterDigits(a, b);
      assert spec[..|a|] == a;
      assert spec[|a| + 1..] == b;
    }
  }

  /**
   * The bytes a server selects for a satisfiable range of `resource`
   * (section 14.1.2 of RFC 9110): from the first position through the last,
   * or through the end of the representation when the last position lies
   * beyond it.
   */
  function RangeBody(resource: Bytes, r: ByteRange): (body: Bytes)
    requires 0 <= r.start <= r.end && r.start < |resource|
    ensures |body| == (if r.end < |resource| then r.end + 1 else |resource|) - r.start
    ensures r.end < |resource| ==> |body| == Length(r)
    ensures forall i :: 0 <= i < |body| ==> body[i] == resource[r.start + i]
  {
    if r.end < |resource| then resource[r.start..r.end + 1] else resource[r.start..]
  }

  /**
   * `server` maps the `Range` header of a GET to the body it returns, and
   * answers every satisfiable int-range of `resource` with that range's bytes.
   */
  ghost predicate HonoursRanges(server: string -> Bytes, resource: Bytes) {
    forall h :: ParseRange(h).Some? && ParseRange(h).value.start < |resource| ==>
      server(h) == RangeBody(resource, ParseRange(h).value)
  }
}
