/**
 `ServiceFlag.String`: the human-readable form of a peer's service bit set.
 Known flags are named, leftover bits are appended as lower-case hex, and
 `|` separators are trimmed from both ends.
 */
module Protocol {
  import opened Bytes

  /** A set of service bits a peer advertises, one bit per capability. */
  type ServiceFlag = uint64

  const SFNodeNetwork: ServiceFlag := 1

  /** sfStrings: the flags that have a name. It has a single entry, so Go's
      map iteration over it visits that entry alone. */
  const SFStrings: seq<(ServiceFlag, string)> := [(SFNodeNetwork, "SFNodeNetwork")]

  /* ---------------------------------------------------------------------- */
  /* Bitwise AND on naturals                                                 */
  /* ---------------------------------------------------------------------- */

  /** a & b, one binary digit at a time from the least significant. */
  function BitAnd(a: nat, b: nat): (r: nat)
    ensures r <= a && r <= b
    decreases a
  {
    if a == 0 || b == 0 then 0
    else 2 * BitAnd(a / 2, b / 2) + (if a % 2 == 1 && b % 2 == 1 then 1 else 0)
  }

  function Pow2(n: nat): (p: nat)
    ensures p >= 1
  {
    if n == 0 then 1 else 2 * Pow2(n - 1)
  }

  /** Bit i of x. */
  function Bit(x: nat, i: nat): nat
  {
    (x / Pow2(i)) % 2
  }

  /** Bit i of a & b is set exactly when bit i is set in both a and b. */
  lemma {:induction false} BitAndBit(a: nat, b: nat, i: nat)
    ensures Bit(BitAnd(a, b), i) == if Bit(a, i) == 1 && Bit(b, i) == 1 then 1 else 0
    decreases i
  {
    var r := BitAnd(a, b);
    if a == 0 || b == 0 {
      assert r == 0;
      assert Bit(0, i) == 0;
    } else {
      var low := if a % 2 == 1 && b % 2 == 1 then 1 else 0;
      assert r == 2 * BitAnd(a / 2, b / 2) + low;
      DivModUnique(r, 2, BitAnd(a / 2, b / 2), low);
      if i > 0 {
        DivDiv(r, 2, Pow2(i - 1));
        DivDiv(a, 2, Pow2(i - 1));
        DivDiv(b, 2, Pow2(i - 1));
        BitAndBit(a / 2, b / 2, i - 1);
      }
    }
  }

  lemma BitAndOne(a: nat)
    ensures BitAnd(a, 1) == a % 2
  {
    if a > 0 {
      assert BitAnd(a / 2, 0) == 0;
    }
  }

  /* ---------------------------------------------------------------------- */
  /* strings.TrimRight / strings.TrimLeft with a one-character cutset         */
  /* ---------------------------------------------------------------------- */

  /** s without its trailing run of `cut` characters. */
  function TrimRight(s: string, cut: char): (t: string)
    ensures t <= s
    ensures |t| == 0 || t[|t| - 1] != cut
    ensures forall i :: |t| <= i < |s| ==> s[i] == cut
  {
    if |s| > 0 && s[|s| - 1] == cut then TrimRight(s[..|s| - 1], cut) else s
  }

  /** s without its leading run of `cut` characters. */
  function TrimLeft(s: string, cut: char): (t: string)
    ensures |t| <= |s| && t == s[|s| - |t|..]
    ensures |t| == 0 || t[0] != cut
    ensures forall i :: 0 <= i < |s| - |t| ==> s[i] == cut
  {
    if |s| > 0 && s[0] == cut then TrimLeft(s[1..], cut) else s
  }

  /* ---------------------------------------------------------------------- */
  /* strconv.FormatUint(x, 16) and its inverse                               */
  /* ---------------------------------------------------------------------- */

  predicate IsHexDigit(c: char)
  {
    ('0' <= c <= '9') || ('a' <= c <= 'f')
  }

  predicate AllHexDigits(s: string)
  {
    forall i :: 0 <= i < |s| ==> IsHexDigit(s[i])
  }

  function DigitChar(d: nat): (c: char)
    requires d < 16
    ensures IsHexDigit(c)
  {
    if d < 10 then (48 + d) as char else (87 + d) as char
  }

  function DigitValue(c: char): (d: nat)
    requires IsHexDigit(c)
    ensures d < 16 && DigitChar(d) == c
  {
    if c <= '9' then c as int - 48 else c as int - 87
  }

  /** Lower-case base-16 digits of x, without leading zeros ("0" for 0). */
  function FormatHex(x: nat): (h: string)
    ensures |h| > 0 && AllHexDigits(h)
    ensures x > 0 ==> h[0] != '0'
    ensures x < 16 <==> |h| == 1
    decreases x
  {
    if x < 16 then [DigitChar(x)] else FormatHex(x / 16) + [DigitChar(x % 16)]
  }

  /** The value of a string of base-16 digits ("" reads as 0). */
  function ParseHex(h: string): nat
    requires AllHexDigits(h)
  {
    if |h| == 0 then 0 else ParseHex(h[..|h| - 1]) * 16 + DigitValue(h[|h| - 1])
  }

  /** Reading back the hex form gives the number. */
  lemma {:induction false} ParseFormatHex(x: nat)
    ensures ParseHex(FormatHex(x)) == x
    decreases x
  {
    var h := FormatHex(x);
    if x >= 16 {
      assert h[..|h| - 1] == FormatHex(x / 16);
      ParseFormatHex(x / 16);
    }
  }

  /** A digit string with no leading zero reads as at least 1. */
  lemma {:induction false} ParseHexPositive(h: string)
    requires |h| > 0 && AllHexDigits(h) && h[0] != '0'
    ensures ParseHex(h) >= 1
  {
    if |h| > 1 {
      ParseHexPositive(h[..|h| - 1]);
    } else {
      assert DigitChar(0) == '0';
    }
  }

  /** A canonical hex string is the hex form of the number it reads as. */
  lemma {:induction false} FormatParseHex(h: string)
    requires |h| > 0 && AllHexDigits(h)
    requires |h| == 1 || h[0] != '0'
    ensures FormatHex(ParseHex(h)) == h
  {
    var init := h[..|h| - 1];
    var d := DigitValue(h[|h| - 1]);
    if |h| > 1 {
      ParseHexPositive(init);
      FormatParseHex(init);
      var x := ParseHex(h);
      assert x / 16 == ParseHex(init) && x % 16 == d;
      assert h == init + [h[|h| - 1]];
    } else {
      assert init == [];
    }
  }

  /* ---------------------------------------------------------------------- */
  /* ServiceFlag.String                                                      */
  /* ---------------------------------------------------------------------- */

  /** The loop over sfStrings: for every flag contained in f, append its name
      and a separator to s and clear the flag from f. */
  function NameFlags(f: nat, names: seq<(ServiceFlag, string)>, s: string): (r: (string, nat))
    ensures r.1 <= f
  {
    if |names| == 0 then (s, f)
    else
      var flag := names[0].0;
      if BitAnd(f, flag) == flag then NameFlags(f - flag, names[1..], s + names[0].1 + "|")
      else NameFlags(f, names[1..], s)
  }

  /** ServiceFlag.String */
  function ServiceFlagString(f: ServiceFlag): string
  {
    if f == 0 then "0x0"
    else
      var named := NameFlags(f, SFStrings, "");
      var trimmed := TrimRight(named.0, '|');
      var withHex := if named.1 != 0 then trimmed + "|0x" + FormatHex(named.1) else trimmed;
      TrimLeft(withHex, '|')
  }

  /** The loop over sfStrings names SFNodeNetwork exactly when bit 0 is set. */
  lemma NameFlagsTable(f: ServiceFlag)
    ensures NameFlags(f, SFStrings, "") ==
      if f % 2 == 1 then ("SFNodeNetwork|", f - 1) else ("", f)
  {
    BitAndOne(f);
    assert SFStrings[0] == (1, "SFNodeNetwork") && SFStrings[1..] == [];
    if f % 2 == 1 {
      assert NameFlags(f, SFStrings, "") == NameFlags(f - 1, [], "" + "SFNodeNetwork" + "|");
      assert "" + "SFNodeNetwork" + "|" == "SFNodeNetwork|";
    } else {
      assert NameFlags(f, SFStrings, "") == NameFlags(f, [], "");
    }
  }

  lemma ServiceFlagStringOdd(f: ServiceFlag)
    requires f % 2 == 1
    ensures f == 1 ==> ServiceFlagString(f) == "SFNodeNetwork"
    ensures f > 1 ==> ServiceFlagString(f) == "SFNodeNetwork|0x" + FormatHex(f - 1)
  {
    NameFlagsTable(f);
    assert "SFNodeNetwork|"[..13] == "SFNodeNetwork";
    assert TrimRight("SFNodeNetwork|", '|') == "SFNodeNetwork";
    if f > 1 {
      var h := FormatHex(f - 1);
      assert ("SFNodeNetwork" + "|0x" + h)[0] == 'S';
      assert "SFNodeNetwork" + "|0x" + h == "SFNodeNetwork|0x" + h;
    }
  }

  lemma ServiceFlagStringEven(f: ServiceFlag)
    requires f % 2 == 0 && f > 0
    ensures ServiceFlagString(f) == "0x" + FormatHex(f)
  {
    NameFlagsTable(f);
    var h := FormatHex(f);
    var withHex := TrimRight("", '|') + "|0x" + h;
    assert withHex[0] == '|' && withHex[1..] == "0x" + h;
    assert TrimLeft("0x" + h, '|') == "0x" + h;
  }

  /** The result, case by case on bit 0 and the remaining bits. */
  lemma ServiceFlagStringCases(f: ServiceFlag)
    ensures f == 0 ==> ServiceFlagString(f) == "0x0"
    ensures f == 1 ==> ServiceFlagString(f) == "SFNodeNetwork"
    ensures f % 2 == 1 && f > 1 ==> ServiceFlagString(f) == "SFNodeNetwork|0x" + FormatHex(f - 1)
    ensures f % 2 == 0 && f > 0 ==> ServiceFlagString(f) == "0x" + FormatHex(f)
  {
    if f % 2 == 1 {
      ServiceFlagStringOdd(f);
    } else if f > 0 {
      ServiceFlagStringEven(f);
    }
  }

  /** The result is never empty and never starts or ends with a separator. */
  lemma ServiceFlagStringNoEdgeSeparators(f: ServiceFlag)
    ensures var s := ServiceFlagString(f); |s| > 0 && s[0] != '|' && s[|s| - 1] != '|'
  {
    ServiceFlagStringCases(f);
    if f > 1 || (f == 1 && f % 2 == 0) {
      var h := FormatHex(if f % 2 == 1 then f - 1 else f);
      assert IsHexDigit(h[|h| - 1]);
    }
  }

  /** The longest suffix of s made of hex digits. */
  function TrailingHexDigits(s: string): (t: string)
    ensures AllHexDigits(t) && |t| <= |s| && t == s[|s| - |t|..]
  {
    if |s| > 0 && IsHexDigit(s[|s| - 1]) then TrailingHexDigits(s[..|s| - 1]) + [s[|s| - 1]]
    else []
  }

  /** After a character that is not a hex digit, the trailing hex digits are
      exactly what follows it. */
  lemma {:induction false} TrailingHexDigitsAfter(p: string, h: string)
    requires |p| > 0 && !IsHexDigit(p[|p| - 1]) && AllHexDigits(h)
    ensures TrailingHexDigits(p + h) == h
  {
    if |h| > 0 {
      var h' := h[..|h| - 1];
      assert (p + h)[..|p + h| - 1] == p + h';
      TrailingHexDigitsAfter(p, h');
      assert h == h' + [h[|h| - 1]];
    } else {
      assert p + h == p;
    }
  }

  /** The hex form written after such a character reads back as y. */
  lemma HexSuffixReadsBack(p: string, y: nat)
    requires |p| > 0 && !IsHexDigit(p[|p| - 1])
    ensures ParseHex(TrailingHexDigits(p + FormatHex(y))) == y
  {
    TrailingHexDigitsAfter(p, FormatHex(y));
    ParseFormatHex(y);
  }

  lemma NoTrailingHexInName()
    ensures TrailingHexDigits("SFNodeNetwork") == ""
  {
    assert !IsHexDigit("SFNodeNetwork"[12]);
  }

  /** The hex digits at the end of the result read back as exactly the bits of
      f that no named flag accounts for (zero when there are none). */
  lemma ServiceFlagStringLeftover(f: ServiceFlag)
    ensures ParseHex(TrailingHexDigits(ServiceFlagString(f))) == f - BitAnd(f, SFNodeNetwork)
  {
    ServiceFlagStringCases(f);
    BitAndOne(f);
    if f == 0 {
      assert "0x0" == "0x" + FormatHex(0);
      HexSuffixReadsBack("0x", 0);
    } else if f == 1 {
      NoTrailingHexInName();
    } else if f % 2 == 1 {
      HexSuffixReadsBack("SFNodeNetwork|0x", f - 1);
    } else {
      HexSuffixReadsBack("0x", f);
    }
  }
}
