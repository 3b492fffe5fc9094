/**
 * `getUserId`: reuse the browser's `poll_user_id` cookie, or format a fresh
 * version-4-style GUID from eight values drawn with `mt_rand`. The random
 * draws are parameters; setting the cookie is reported as a flag.
 */
module Identity {
  import opened Wrappers
  import opened Php
  import opened VoteFiles

  predicate IsLowerHex(c: char)
  {
    '0' <= c <= '9' || 'a' <= c <= 'f'
  }

  function HexDigit(d: nat): (c: char)
    requires d < 16
    ensures IsLowerHex(c)
  {
    "0123456789abcdef"[d]
  }

  function DigitValue(c: char): nat
    requires IsLowerHex(c)
  {
    if c <= '9' then c as nat - '0' as nat else c as nat - 'a' as nat + 10
  }

  /** The number a string of lower-case hex digits spells. */
  function HexValue(s: string): nat
    requires forall i :: 0 <= i < |s| ==> IsLowerHex(s[i])
  {
    if s == [] then 0 else 16 * HexValue(s[..|s| - 1]) + DigitValue(s[|s| - 1])
  }

  /** `sprintf('%04x', n)` for a 16-bit value. */
  function Hex4(n: nat): (h: string)
    requires n < 0x10000
    ensures |h| == 4 && forall i :: 0 <= i < 4 ==> IsLowerHex(h[i])
    ensures h[0] == HexDigit(n / 0x1000)
    ensures HexValue(h) == n
  {
    var d0, d1, d2, d3 := n / 0x1000, n / 0x100 % 16, n / 16 % 16, n % 16;
    var h := [HexDigit(d0), HexDigit(d1), HexDigit(d2), HexDigit(d3)];
    HexValueOfFour(h);
    DigitsOf16Bits(n);
    h
  }

  lemma HexValueOfFour(h: string)
    requires |h| == 4 && forall i :: 0 <= i < 4 ==> IsLowerHex(h[i])
    ensures HexValue(h) == 16 * (16 * (16 * DigitValue(h[0]) + DigitValue(h[1])) + DigitValue(h[2])) + DigitValue(h[3])
  {
    var h1, h2, h3 := h[..1], h[..2], h[..3];
    assert h1[..0] == [] && h2[..1] == h1 && h3[..2] == h2 && h[..3] == h3;
    assert HexValue(h1) == DigitValue(h[0]);
    assert HexValue(h2) == 16 * DigitValue(h[0]) + DigitValue(h[1]);
  }

  lemma DigitsOf16Bits(n: nat)
    requires n < 0x10000
    ensures forall d: nat :: d < 16 ==> DigitValue(HexDigit(d)) == d
    ensures n == 16 * (16 * (16 * (n / 0x1000) + n / 0x100 % 16) + n / 16 % 16) + n % 16
  {
    assert n / 16 == 16 * (n / 0x100) + n / 16 % 16;
    assert n / 0x100 == 16 * (n / 0x1000) + n / 0x100 % 16;
  }

  /** PHP's `|` on non-negative integers, bit by bit from the lowest. */
  function BitOr(x: nat, y: nat): nat
    decreases x + y
  {
    if x == 0 && y == 0 then 0
    else 2 * BitOr(x / 2, y / 2) + (if x % 2 == 1 || y % 2 == 1 then 1 else 0)
  }

  function Pow2(k: nat): nat
  {
    if k == 0 then 1 else 2 * Pow2(k - 1)
  }

  /** OR-ing in a bit above every set bit of `x` adds it. */
  lemma {:induction false} OrAddsClearBit(x: nat, k: nat)
    requires x < Pow2(k)
    ensures BitOr(x, Pow2(k)) == x + Pow2(k)
  {
    if k > 0 {
      assert Pow2(k) / 2 == Pow2(k - 1) && Pow2(k) % 2 == 0;
      OrAddsClearBit(x / 2, k - 1);
    }
  }

  /** A draw up to 0x0fff has bit 14 clear, so `| 0x4000` adds 0x4000. */
  lemma OrSetsVersionBit(x: nat)
    requires x <= 0x0fff
    ensures BitOr(x, 0x4000) == x + 0x4000
  {
    assert Pow2(14) == 0x4000 by {
      assert Pow2(4) == 16;
      assert Pow2(8) == 256 by { assert Pow2(8) == 16 * Pow2(4); }
      assert Pow2(12) == 0x1000 by { assert Pow2(12) == 16 * Pow2(8); }
    }
    OrAddsClearBit(x, 14);
  }

  /** A draw up to 0x3fff has bit 15 clear, so `| 0x8000` adds 0x8000. */
  lemma OrSetsVariantBit(x: nat)
    requires x <= 0x3fff
    ensures BitOr(x, 0x8000) == x + 0x8000
  {
    assert Pow2(15) == 0x8000 by {
      assert Pow2(4) == 16;
      assert Pow2(8) == 256 by { assert Pow2(8) == 16 * Pow2(4); }
      assert Pow2(12) == 0x1000 by { assert Pow2(12) == 16 * Pow2(8); }
    }
    OrAddsClearBit(x, 15);
  }

  /** The eight 16-bit groups `getUserId` formats: draws 3 and 4 get the version and variant bits. */
  function GuidWords(rnd: seq<nat>): (w: seq<nat>)
    requires ValidDraws(rnd)
    ensures |w| == 8 && forall i :: 0 <= i < 8 ==> w[i] < 0x10000
    ensures w[3] == rnd[3] + 0x4000 && w[4] == rnd[4] + 0x8000
  {
    OrSetsVersionBit(rnd[3]);
    OrSetsVariantBit(rnd[4]);
    [rnd[0], rnd[1], rnd[2], BitOr(rnd[3], 0x4000), BitOr(rnd[4], 0x8000), rnd[5], rnd[6], rnd[7]]
  }

  /** The ranges `mt_rand` draws from: 0..0xffff, except 0..0x0fff for the fourth and 0..0x3fff for the fifth. */
  predicate ValidDraws(rnd: seq<nat>)
  {
    |rnd| == 8 && (forall i :: 0 <= i < 8 ==> rnd[i] <= 0xffff) && rnd[3] <= 0x0fff && rnd[4] <= 0x3fff
  }

  /** `sprintf('%04x%04x-%04x-%04x-%04x-%04x%04x%04x', ...)` on the eight groups. */
  function FormatGuid(w: seq<nat>): string
    requires |w| == 8 && forall i :: 0 <= i < 8 ==> w[i] < 0x10000
  {
    Layout(Hex4(w[0]), Hex4(w[1]), Hex4(w[2]), Hex4(w[3]), Hex4(w[4]), Hex4(w[5]), Hex4(w[6]), Hex4(w[7]))
  }

  /** The groups joined as `%s%s-%s-%s-%s-%s%s%s`. */
  function Layout(g0: string, g1: string, g2: string, g3: string, g4: string, g5: string, g6: string, g7: string): string
  {
    g0 + g1 + "-" + g2 + "-" + g3 + "-" + g4 + "-" + g5 + g6 + g7
  }

  predicate IsHexRun(s: string)
  {
    forall i :: 0 <= i < |s| ==> IsLowerHex(s[i])
  }

  /** 36 characters: lower-case hex in 8-4-4-4-12 groups, version digit '4', variant digit one of 8, 9, a, b. */
  predicate IsGuid(s: string)
  {
    |s| == 36 &&
    IsHexRun(s[0..4]) && IsHexRun(s[4..8]) && s[8] == '-' && IsHexRun(s[9..13]) && s[13] == '-' &&
    IsHexRun(s[14..18]) && s[18] == '-' && IsHexRun(s[19..23]) && s[23] == '-' &&
    IsHexRun(s[24..28]) && IsHexRun(s[28..32]) && IsHexRun(s[32..36]) &&
    s[14] == '4' && s[19] in "89ab"
  }

  /** A GUID never contains '_', so it can serve as the user part of a vote file name. */
  lemma GuidHasNoUnderscore(s: string)
    requires IsGuid(s)
    ensures NoUnderscore(s)
  {
    forall i | 0 <= i < 36
      ensures s[i] != '_'
    {
      if i < 4 { assert s[i] == s[0..4][i]; }
      else if i < 8 { assert s[i] == s[4..8][i - 4]; }
      else if 8 < i < 13 { assert s[i] == s[9..13][i - 9]; }
      else if 13 < i < 18 { assert s[i] == s[14..18][i - 14]; }
      else if 18 < i < 23 { assert s[i] == s[19..23][i - 19]; }
      else if 23 < i < 28 { assert s[i] == s[24..28][i - 24]; }
      else if 27 < i < 32 { assert s[i] == s[28..32][i - 28]; }
      else if 31 < i { assert s[i] == s[32..36][i - 32]; }
    }
  }

  /** The eight 16-bit groups a GUID spells, in the order they were formatted. */
  function ParseGuid(s: string): seq<nat>
    requires IsGuid(s)
  {
    [HexValue(s[0..4]), HexValue(s[4..8]), HexValue(s[9..13]), HexValue(s[14..18]),
     HexValue(s[19..23]), HexValue(s[24..28]), HexValue(s[28..32]), HexValue(s[32..36])]
  }

  /** Formatting groups with the version and variant bits set gives a GUID that parses back to them. */
  lemma FormatGuidRoundTrip(w: seq<nat>)
    requires |w| == 8 && forall i :: 0 <= i < 8 ==> w[i] < 0x10000
    requires w[3] / 0x1000 == 4 && 8 <= w[4] / 0x1000 <= 11
    ensures IsGuid(FormatGuid(w))
    ensures ParseGuid(FormatGuid(w)) == w
    ensures NoUnderscore(FormatGuid(w))
  {
    FormatGuidIsGuid(w);
    var s := FormatGuid(w);
    GroupLayout(Hex4(w[0]), Hex4(w[1]), Hex4(w[2]), Hex4(w[3]), Hex4(w[4]), Hex4(w[5]), Hex4(w[6]), Hex4(w[7]));
    var p := ParseGuid(s);
    assert forall i :: 0 <= i < 8 ==> p[i] == w[i];
    GuidHasNoUnderscore(s);
  }

  lemma FormatGuidIsGuid(w: seq<nat>)
    requires |w| == 8 && forall i :: 0 <= i < 8 ==> w[i] < 0x10000
    requires w[3] / 0x1000 == 4 && 8 <= w[4] / 0x1000 <= 11
    ensures IsGuid(FormatGuid(w))
  {
    var d := w[4] / 0x1000;
    assert HexDigit(d) in "89ab" by {
      assert d == 8 || d == 9 || d == 10 || d == 11;
    }
    LayoutIsGuid(Hex4(w[0]), Hex4(w[1]), Hex4(w[2]), Hex4(w[3]), Hex4(w[4]), Hex4(w[5]), Hex4(w[6]), Hex4(w[7]));
  }

  lemma LayoutIsGuid(g0: string, g1: string, g2: string, g3: string, g4: string, g5: string, g6: string, g7: string)
    requires |g0| == |g1| == |g2| == |g3| == |g4| == |g5| == |g6| == |g7| == 4
    requires IsHexRun(g0) && IsHexRun(g1) && IsHexRun(g2) && IsHexRun(g3)
    requires IsHexRun(g4) && IsHexRun(g5) && IsHexRun(g6) && IsHexRun(g7)
    requires g3[0] == '4' && g4[0] in "89ab"
    ensures IsGuid(Layout(g0, g1, g2, g3, g4, g5, g6, g7))
  {
    GroupLayout(g0, g1, g2, g3, g4, g5, g6, g7);
    var s := Layout(g0, g1, g2, g3, g4, g5, g6, g7);
    assert s[14] == s[14..18][0];
    assert s[19] == s[19..23][0];
  }

  /** Where the eight groups and the four dashes land in the 8-4-4-4-12 layout. */
  lemma GroupLayout(g0: string, g1: string, g2: string, g3: string, g4: string, g5: string, g6: string, g7: string)
    requires |g0| == |g1| == |g2| == |g3| == |g4| == |g5| == |g6| == |g7| == 4
    ensures var s := Layout(g0, g1, g2, g3, g4, g5, g6, g7);
      |s| == 36 && s[8] == s[13] == s[18] == s[23] == '-' &&
      s[0..4] == g0 && s[4..8] == g1 && s[9..13] == g2 && s[14..18] == g3 && s[19..23] == g4 &&
      s[24..28] == g5 && s[28..32] == g6 && s[32..36] == g7
  {
    var t1 := g0 + g1 + "-";
    var t2 := t1 + g2 + "-";
    var t3 := t2 + g3 + "-";
    var t4 := t3 + g4 + "-";
    var t5 := g5 + g6 + g7;
    var s := Layout(g0, g1, g2, g3, g4, g5, g6, g7);
    assert s == t4 + t5;
    assert s[..24] == t4 && s[24..] == t5;
    assert t4[..19] == t3 && t3[..14] == t2 && t2[..9] == t1;
  }

  /** The result of `getUserId`: the id, and whether a new cookie must be set. */
  datatype UserId = UserId(id: string, setCookie: bool)

  /**
   * `getUserId`: a cookie that is set and not empty ("" and "0" are empty in
   * PHP) is returned unchanged; otherwise a fresh GUID is formatted from the draws.
   */
  function GetUserId(cookie: Option<string>, rnd: seq<nat>): (r: UserId)
    requires ValidDraws(rnd)
    ensures Truthy(cookie) ==> r == UserId(cookie.value, false)
    ensures !Truthy(cookie) ==> r.setCookie && IsGuid(r.id) && NoUnderscore(r.id)
    ensures !Truthy(cookie) ==> ParseGuid(r.id) == GuidWords(rnd)
  {
    if Truthy(cookie) then UserId(cookie.value, false)
    else
      FormatGuidRoundTrip(GuidWords(rnd));
      UserId(FormatGuid(GuidWords(rnd)), true)
  }
}
