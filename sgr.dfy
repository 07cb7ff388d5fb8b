/**
 * Select Graphic Rendition control sequences (section 8.3.117 of ECMA-48):
 * ESC '[' followed by decimal parameters separated by ';' and the final byte 'm'.
 * The program uses the direct-colour forms 38;2;r;g;b (foreground) and
 * 48;2;r;g;b (background), and parameter 0 to reset.
 */
module Sgr {
  import opened Options
  import opened Decimal

  /** The ESC control character, 0x1B, which opens the control sequence. */
  const Esc: char := 27 as char

  /** The reset sequence ESC[0m. */
  const Reset: string := [Esc] + "[0m"

  /** The parameter string: each parameter in decimal, separated by ';'. */
  function Params(ps: seq<nat>): string
    requires |ps| > 0
  {
    if |ps| == 1 then Digits(ps[0]) else Digits(ps[0]) + ";" + Params(ps[1..])
  }

  /** The SGR control sequence carrying the parameters ps. */
  function Sgr(ps: seq<nat>): string
    requires |ps| > 0
  {
    [Esc] + "[" + Params(ps) + "m"
  }

  /** The reset is the SGR sequence with the single parameter 0. */
  lemma ResetIsSgr()
    ensures Reset == Sgr([0])
  {
    assert Digits(0) == "0";
  }

  /** Foreground colour escape: ESC[38;2;r;g;bm with r, g, b in decimal. */
  function RgbFG(r: nat, g: nat, b: nat): (s: string)
    ensures s == Sgr([38, 2, r, g, b])
  {
    DirectColourIsSgr(38, r, g, b);
    [Esc] + "[38;2;" + Digits(r) + ";" + Digits(g) + ";" + Digits(b) + "m"
  }

  /** Background colour escape: ESC[48;2;r;g;bm with r, g, b in decimal. */
  function RgbBG(r: nat, g: nat, b: nat): (s: string)
    ensures s == Sgr([48, 2, r, g, b])
  {
    DirectColourIsSgr(48, r, g, b);
    [Esc] + "[48;2;" + Digits(r) + ";" + Digits(g) + ";" + Digits(b) + "m"
  }

  /** The two-digit selector is written as its two digits. */
  lemma SelectorDigits(selector: nat)
    requires selector == 38 || selector == 48
    ensures Digits(selector) == (if selector == 38 then "38" else "48")
  {
    assert Digits(selector) == Digits(selector / 10) + [DigitChar(selector % 10)];
  }

  /** A parameter list with more than one entry is its first numeral, ';', and the rest. */
  lemma ParamsCons(p: nat, ps: seq<nat>)
    requires |ps| > 0
    ensures Params([p] + ps) == Digits(p) + ";" + Params(ps)
  {
    assert ([p] + ps)[1..] == ps;
  }

  /** Five parameters are written as the five numerals separated by ';'. */
  lemma ParamsOfFive(a: nat, b: nat, c: nat, d: nat, e: nat)
    ensures Params([a, b, c, d, e])
         == Digits(a) + ";" + Digits(b) + ";" + Digits(c) + ";" + Digits(d) + ";" + Digits(e)
  {
    var da, db, dc, dd, de := Digits(a), Digits(b), Digits(c), Digits(d), Digits(e);
    ParamsCons(d, [e]);
    var p4 := dd + ";" + de;
    assert [d] + [e] == [d, e];
    ParamsCons(c, [d, e]);
    assert [c] + [d, e] == [c, d, e];
    var p3 := dc + ";" + p4;
    ParamsCons(b, [c, d, e]);
    assert [b] + [c, d, e] == [b, c, d, e];
    var p2 := db + ";" + p3;
    ParamsCons(a, [b, c, d, e]);
    assert [a] + [b, c, d, e] == [a, b, c, d, e];
    Separated(da, db, dc, dd, de);
  }

  lemma Separated(a: string, b: string, c: string, d: string, e: string)
    ensures a + ";" + (b + ";" + (c + ";" + (d + ";" + e)))
         == a + ";" + b + ";" + c + ";" + d + ";" + e
  {
  }

  lemma DirectColourIsSgr(selector: nat, r: nat, g: nat, b: nat)
    requires selector == 38 || selector == 48
    ensures [Esc] + "[" + (if selector == 38 then "38" else "48") + ";2;" + Digits(r) + ";" + Digits(g) + ";" + Digits(b) + "m"
         == Sgr([selector, 2, r, g, b])
  {
    SelectorDigits(selector);
    ParamsOfFive(selector, 2, r, g, b);
    assert Digits(2) == "2";
    Framed(if selector == 38 then "38" else "48", Digits(r), Digits(g), Digits(b));
  }

  lemma Framed(sel: string, x: string, y: string, z: string)
    ensures [Esc] + "[" + (sel + ";" + "2" + ";" + x + ";" + y + ";" + z) + "m"
         == [Esc] + "[" + sel + ";2;" + x + ";" + y + ";" + z + "m"
  {
  }

  /**
   * Reads parameters up to and including the final 'm'; gives the parameters
   * and what follows the sequence.
   */
  function ParseParams(s: string): (r: Option<(seq<nat>, string)>)
    ensures r.Some? ==> |r.value.0| > 0 && |r.value.1| < |s|
    decreases |s|
  {
    var (ds, rest) := TakeDigits(s);
    if ds == [] || rest == [] then None
    else if rest[0] == 'm' then Some(([Value(ds)], rest[1..]))
    else if rest[0] == ';' then
      match ParseParams(rest[1..])
      case None => None
      case Some((ps, tail)) => Some(([Value(ds)] + ps, tail))
    else None
  }

  /** Reads one SGR sequence at the start of s; gives its parameters and the remainder. */
  function ParseSgr(s: string): (r: Option<(seq<nat>, string)>)
    ensures r.Some? ==> |r.value.0| > 0 && |r.value.1| < |s|
  {
    if |s| >= 2 && s[0] == Esc && s[1] == '[' then ParseParams(s[2..]) else None
  }

  lemma {:induction false} ParseParamsRoundTrip(ps: seq<nat>, rest: string)
    requires |ps| > 0
    ensures ParseParams(Params(ps) + "m" + rest) == Some((ps, rest))
  {
    var s := Params(ps) + "m" + rest;
    var d := Digits(ps[0]);
    ValueOfDigits(ps[0]);
    if |ps| == 1 {
      assert s == d + ("m" + rest);
      TakeDigitsOf(d, "m" + rest);
      assert ("m" + rest)[1..] == rest;
      assert [ps[0]] == ps;
    } else {
      var tail := Params(ps[1..]) + "m" + rest;
      assert s == d + (";" + tail);
      TakeDigitsOf(d, ";" + tail);
      ParseParamsRoundTrip(ps[1..], rest);
      assert (";" + tail)[1..] == tail;
      assert [ps[0]] + ps[1..] == ps;
    }
  }

  /** Every SGR sequence is read back as exactly its parameters, whatever follows it. */
  lemma ParseSgrRoundTrip(ps: seq<nat>, rest: string)
    requires |ps| > 0
    ensures ParseSgr(Sgr(ps) + rest) == Some((ps, rest))
  {
    var s := Sgr(ps) + rest;
    assert s[2..] == Params(ps) + "m" + rest;
    ParseParamsRoundTrip(ps, rest);
  }

  /** r, g and b can be recovered from the background escape. */
  lemma RgbBGRoundTrip(r: nat, g: nat, b: nat, rest: string)
    ensures ParseSgr(RgbBG(r, g, b) + rest) == Some(([48, 2, r, g, b], rest))
  {
    ParseSgrRoundTrip([48, 2, r, g, b], rest);
  }

  /** r, g and b can be recovered from the foreground escape. */
  lemma RgbFGRoundTrip(r: nat, g: nat, b: nat, rest: string)
    ensures ParseSgr(RgbFG(r, g, b) + rest) == Some(([38, 2, r, g, b], rest))
  {
    ParseSgrRoundTrip([38, 2, r, g, b], rest);
  }

  /** Distinct colours give distinct escapes, and a background escape is never a foreground one. */
  lemma EscapesInjective(r: nat, g: nat, b: nat, r': nat, g': nat, b': nat)
    ensures RgbBG(r, g, b) == RgbBG(r', g', b') ==> r == r' && g == g' && b == b'
    ensures RgbFG(r, g, b) == RgbFG(r', g', b') ==> r == r' && g == g' && b == b'
    ensures RgbFG(r, g, b) != RgbBG(r', g', b')
  {
    RgbBGRoundTrip(r, g, b, "");
    RgbBGRoundTrip(r', g', b', "");
    RgbFGRoundTrip(r, g, b, "");
    RgbFGRoundTrip(r', g', b', "");
    assert RgbBG(r, g, b) + "" == RgbBG(r, g, b);
    assert RgbBG(r', g', b') + "" == RgbBG(r', g', b');
    assert RgbFG(r, g, b) + "" == RgbFG(r, g, b);
    assert RgbFG(r', g', b') + "" == RgbFG(r', g', b');
  }

  /** The reset is read back as the single parameter 0. */
  lemma ResetRoundTrip(rest: string)
    ensures ParseSgr(Reset + rest) == Some(([0], rest))
  {
    ResetIsSgr();
    ParseSgrRoundTrip([0], rest);
  }
}
