/**
 * The browser, as far as the page depends on it: a colour written to
 * `style.backgroundColor` as `#rrggbb` is reported back as `rgb(r, g, b)`, each
 * channel in decimal and separated by a comma and one space. Any other string is
 * taken to be reported as written. This is an assumption about the environment,
 * not code of the page.
 */
module Browser {
  import opened Results
  import opened Text
  import opened Radix
  import opened Rgb

  /** `#` followed by six hex digits of either case. */
  predicate IsHexColor(w: string) {
    |w| == 7 && w[0] == '#' && forall k :: 1 <= k < 7 ==> IsHexDigit(w[k])
  }

  /** The channel written by the two hex digits at `k` and `k + 1`. */
  function Channel(w: string, k: nat): (v: nat)
    requires IsHexColor(w) && (k == 1 || k == 3 || k == 5)
    ensures v < 256
  {
    16 * HexDigitValue(w[k]) + HexDigitValue(w[k + 1])
  }

  /** The match that the reported form of a hex colour is, for `rgb2hex`'s pattern. */
  function ReportedMatch(w: string): (m: RgbMatch)
    requires IsHexColor(w)
    ensures WellFormed(m)
  {
    RgbMatch(false, Decimal(Channel(w, 1)), " ", Decimal(Channel(w, 3)), " ",
             Decimal(Channel(w, 5)), None)
  }

  /** What reading `style.backgroundColor` returns after `w` was written to it. */
  function ReadBack(w: string): (r: string)
    ensures !IsHexColor(w) ==> r == w
  {
    if IsHexColor(w) then
      "rgb(" + Decimal(Channel(w, 1)) + ", " + Decimal(Channel(w, 3)) + ", "
        + Decimal(Channel(w, 5)) + ")"
    else w
  }

  lemma ReadBackIsRendered(w: string)
    requires IsHexColor(w)
    ensures ReadBack(w) == Render(ReportedMatch(w))
  {
    var m := ReportedMatch(w);
    var r, g, b := m.red, m.green, m.blue;
    assert BlueText(b, None) == b + ")";
    assert GreenText(g, " ", b, None) == g + ", " + b + ")";
    assert ChannelsText(m) == r + ", " + g + ", " + b + ")";
    assert Render(m) == "rgb(" + r + ", " + g + ", " + b + ")";
  }

  /** Formatting the byte that two hex digits write gives those digits back, in either case. */
  lemma PairBytes(a: char, b: char, v: nat)
    requires IsHexDigit(a) && IsHexDigit(b) && v == 16 * HexDigitValue(a) + HexDigitValue(b)
    ensures UpperByte(v) == [UpperChar(a), UpperChar(b)]
    ensures LowerByte(v) == [LowerChar(a), LowerChar(b)]
  {
    PairValue(HexDigitValue(a), HexDigitValue(b));
    HexDigitRoundTrip(a);
    HexDigitRoundTrip(b);
  }

  /** A byte written as two hex digits has those digits as its high and low halves. */
  lemma PairValue(hi: nat, lo: nat)
    requires hi < 16 && lo < 16
    ensures (16 * hi + lo) % 256 / 16 == hi && (16 * hi + lo) % 16 == lo
  {
    assert 16 * hi + lo < 256;
  }

  lemma HashAndThreePairs(a: char, b: char, c: char, d: char, e: char, f: char)
    ensures "#" + [a, b] + [c, d] + [e, f] == ['#', a, b, c, d, e, f]
  {
  }

  /** `rgb2hex` of the reported form of a hex colour, channel by channel. */
  lemma NormaliseReadBackBytes(w: string)
    requires IsHexColor(w)
    ensures Rgb2Hex(ReadBack(w)) == Ok("#" + UpperByte(Channel(w, 1)) + UpperByte(Channel(w, 3))
                                           + LowerByte(Channel(w, 5)))
  {
    var m := ReportedMatch(w);
    ReadBackIsRendered(w);
    MatchRgbComplete(m);
    DecimalRoundTrip(Channel(w, 1));
    DecimalRoundTrip(Channel(w, 3));
    DecimalRoundTrip(Channel(w, 5));
  }

  /**
   * `rgb2hex` of the reported form of a written hex colour: red and green come back as
   * written, upper-cased; blue comes back lower-cased.
   */
  lemma NormaliseReadBack(w: string)
    requires IsHexColor(w)
    ensures Rgb2Hex(ReadBack(w)) == Ok(['#', UpperChar(w[1]), UpperChar(w[2]), UpperChar(w[3]),
                                        UpperChar(w[4]), LowerChar(w[5]), LowerChar(w[6])])
  {
    NormaliseReadBackBytes(w);
    PairBytes(w[1], w[2], Channel(w, 1));
    PairBytes(w[3], w[4], Channel(w, 3));
    PairBytes(w[5], w[6], Channel(w, 5));
    HashAndThreePairs(UpperChar(w[1]), UpperChar(w[2]), UpperChar(w[3]), UpperChar(w[4]),
                      LowerChar(w[5]), LowerChar(w[6]));
  }
}
