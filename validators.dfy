/**
 * The checks that modify-url-category-actions.py applies to the operator's
 * input before using it: the controller address (lines 41-46), either a
 * dotted-quad IPv4 address or a host name, and the user name (line 56).
 * Character classes are ASCII ones. Python's `$` also matches just before a
 * final newline, so each check also accepts its language followed by one "\n".
 */
module Validators {
  import opened Text

  predicate IsAsciiLetter(c: char) {
    ('a' <= c <= 'z') || ('A' <= c <= 'Z')
  }

  /** A string matched by one of the three octet alternatives of line 41: 250-255, 200-249, or one to three digits whose first of three is 0 or 1. */
  predicate IsOctet(o: string) {
    || (|o| == 3 && o[0] == '2' && o[1] == '5' && '0' <= o[2] <= '5')
    || (|o| == 3 && o[0] == '2' && '0' <= o[1] <= '4' && IsDigit(o[2]))
    || (1 <= |o| <= 3 && AllDigits(o) && (|o| < 3 || o[0] == '0' || o[0] == '1'))
  }

  /**
   * The whole IPv4 pattern of line 41 up to its `$`: four octets separated by
   * dots. An octet holds no '.', so the dots are exactly the separators.
   */
  predicate MatchesDottedQuad(s: string) {
    var p := Split(s, '.');
    |p| == 4 && IsOctet(p[0]) && IsOctet(p[1]) && IsOctet(p[2]) && IsOctet(p[3])
  }

  /** `re.match` with the IPv4 pattern of line 41. */
  predicate IsIpv4Address(s: string) {
    MatchesDottedQuad(s) || (|s| > 0 && s[|s| - 1] == '\n' && MatchesDottedQuad(s[..|s| - 1]))
  }

  /** A label of line 42 before its dot: 1 to 63 letters, digits or '-', neither first nor last a '-'. */
  predicate IsLabel(l: string) {
    && 1 <= |l| <= 63
    && (forall i :: 0 <= i < |l| ==> IsAsciiLetter(l[i]) || IsDigit(l[i]) || l[i] == '-')
    && l[0] != '-' && l[|l| - 1] != '-'
  }

  /** The final label of line 42: 2 to 63 letters. */
  predicate IsTopLabel(l: string) {
    2 <= |l| <= 63 && forall i :: 0 <= i < |l| ==> IsAsciiLetter(l[i])
  }

  /**
   * The host-name pattern of line 42 up to its `$`: one or more labels each
   * followed by a dot, then a final label; the lookahead bounds the whole
   * length to 4-253. No label holds a '.', so the dots are exactly the separators.
   */
  predicate MatchesHostName(s: string) {
    var p := Split(s, '.');
    && 4 <= |s| <= 253
    && |p| >= 2
    && (forall k :: 0 <= k < |p| - 1 ==> IsLabel(p[k]))
    && IsTopLabel(p[|p| - 1])
  }

  /** `re.match` with the host-name pattern of line 42 (neither `.` of the lookahead nor a label matches "\n"). */
  predicate IsHostName(s: string) {
    MatchesHostName(s) || (|s| > 0 && s[|s| - 1] == '\n' && MatchesHostName(s[..|s| - 1]))
  }

  /** The loop of lines 39-47 stops on an answer that passes either check. */
  predicate IsControllerAddress(s: string) {
    IsIpv4Address(s) || IsHostName(s)
  }

  /** `[\w-]` restricted to ASCII. */
  predicate IsUserNameChar(c: char) {
    IsAsciiLetter(c) || IsDigit(c) || c == '_' || c == '-'
  }

  /** The pattern of line 56 up to its `$`: 3 to 24 word characters or '-'. */
  predicate MatchesUserName(s: string) {
    3 <= |s| <= 24 && forall i :: 0 <= i < |s| ==> IsUserNameChar(s[i])
  }

  /** `re.match` with the pattern of line 56. */
  predicate IsUserName(s: string) {
    MatchesUserName(s) || (|s| > 0 && s[|s| - 1] == '\n' && MatchesUserName(s[..|s| - 1]))
  }

  /** The unreserved characters of section 2.3 of RFC 3986: they need no percent-encoding in a URL. */
  predicate IsUnreserved(c: char) {
    IsAsciiLetter(c) || IsDigit(c) || c == '-' || c == '.' || c == '_' || c == '~'
  }

  lemma {:induction false} ThreeDigitValue(o: string)
    requires |o| == 3 && AllDigits(o)
    ensures DecimalValue(o) == 100 * DigitValue(o[0]) + 10 * DigitValue(o[1]) + DigitValue(o[2])
  {
    assert o[..2][..1] == o[..1];
    assert DecimalValue(o[..1]) == DigitValue(o[0]);
  }

  /**
   * The three alternatives together accept exactly the strings of one to
   * three digits whose value is at most 255, leading zeros included.
   */
  lemma {:induction false} OctetIsByte(o: string)
    ensures IsOctet(o) <==> 1 <= |o| <= 3 && AllDigits(o) && DecimalValue(o) <= 255
  {
    if |o| == 3 && AllDigits(o) {
      ThreeDigitValue(o);
    } else if 1 <= |o| <= 2 && AllDigits(o) {
      assert DecimalValue(o) < 100 by {
        assert o[..1][..0] == [] && o[..|o| - 1][..0] == [];
        assert DecimalValue(o[..1]) == DigitValue(o[0]);
      }
    }
  }

  /** `str(n)` of a number below 1000 has at most three digits. */
  lemma {:induction false} ShortNatToString(n: nat)
    requires n < 1000
    ensures |NatToString(n)| <= 3
  {
    if n >= 10 {
      ShortNatToString(n / 10);
      if n / 10 < 10 {
        assert |NatToString(n / 10)| == 1;
      } else {
        assert n / 10 / 10 < 10;
      }
    }
  }

  lemma {:induction false} ByteIsOctet(n: nat)
    requires n <= 255
    ensures IsOctet(NatToString(n))
  {
    ShortNatToString(n);
    OctetIsByte(NatToString(n));
  }

  lemma {:induction false} DigitsHaveNoDot(s: string)
    requires AllDigits(s)
    ensures '.' !in s
  {
    forall i | 0 <= i < |s| ensures s[i] != '.' {
      assert IsDigit(s[i]);
    }
  }

  /** Four numbers from 0 to 255 written in decimal and joined by dots form an accepted address. */
  lemma {:induction false} DottedQuadIsAccepted(a: nat, b: nat, c: nat, d: nat)
    requires a <= 255 && b <= 255 && c <= 255 && d <= 255
    ensures IsIpv4Address(Join([NatToString(a), NatToString(b), NatToString(c), NatToString(d)], '.'))
  {
    var p := [NatToString(a), NatToString(b), NatToString(c), NatToString(d)];
    DigitsHaveNoDot(p[0]);
    DigitsHaveNoDot(p[1]);
    DigitsHaveNoDot(p[2]);
    DigitsHaveNoDot(p[3]);
    SplitJoin(p, '.');
    ByteIsOctet(a);
    ByteIsOctet(b);
    ByteIsOctet(c);
    ByteIsOctet(d);
  }

  /**
   * Conversely, an accepted address without its optional newline is four
   * pieces of one to three digits, each at most 255, joined by dots.
   */
  lemma {:induction false} AcceptedAddressIsDottedQuad(s: string)
    requires IsIpv4Address(s)
    ensures var t := if MatchesDottedQuad(s) then s else s[..|s| - 1];
      var p := Split(t, '.');
      && |p| == 4 && Join(p, '.') == t
      && forall k :: 0 <= k < 4 ==> 1 <= |p[k]| <= 3 && AllDigits(p[k]) && DecimalValue(p[k]) <= 255
  {
    var t := if MatchesDottedQuad(s) then s else s[..|s| - 1];
    var p := Split(t, '.');
    JoinSplit(t, '.');
    OctetIsByte(p[0]);
    OctetIsByte(p[1]);
    OctetIsByte(p[2]);
    OctetIsByte(p[3]);
  }

  lemma {:induction false} LabelHasNoDot(l: string)
    requires IsLabel(l) || IsTopLabel(l)
    ensures '.' !in l
  {
    forall i | 0 <= i < |l| ensures l[i] != '.' {
      assert IsAsciiLetter(l[i]) || IsDigit(l[i]) || l[i] == '-';
    }
  }

  /** Labels followed by a final label, joined by dots, form an accepted host name when the total length is 4-253. */
  lemma {:induction false} LabelsAreHostName(labels: seq<string>, top: string)
    requires forall k :: 0 <= k < |labels| ==> IsLabel(labels[k])
    requires |labels| >= 1 && IsTopLabel(top)
    requires 4 <= |Join(labels + [top], '.')| <= 253
    ensures IsHostName(Join(labels + [top], '.'))
  {
    var p := labels + [top];
    forall k | 0 <= k < |p| ensures '.' !in p[k] {
      if k < |labels| {
        LabelHasNoDot(labels[k]);
      } else {
        LabelHasNoDot(top);
      }
    }
    SplitJoin(p, '.');
    assert forall k :: 0 <= k < |p| - 1 ==> p[k] == labels[k];
  }

  /**
   * The two patterns of lines 41 and 42 accept disjoint sets: a dotted quad
   * ends in digits, a host name in letters.
   */
  lemma {:induction false} AddressIsNotHostName(s: string)
    requires MatchesDottedQuad(s)
    ensures !MatchesHostName(s)
  {
    var p := Split(s, '.');
    assert IsDigit(p[3][0]);
  }

  /** An accepted user name, once the optional final newline is dropped, can be put in the key request URL of line 71 without escaping. */
  lemma {:induction false} UserNameIsUnreserved(s: string)
    requires IsUserName(s)
    ensures var t := if MatchesUserName(s) then s else s[..|s| - 1];
      3 <= |t| <= 24 && forall i :: 0 <= i < |t| ==> IsUnreserved(t[i])
  {
    var t := if MatchesUserName(s) then s else s[..|s| - 1];
    assert forall i :: 0 <= i < |t| ==> IsUserNameChar(t[i]);
  }

  /** A dotted quad ends in a digit. */
  lemma {:induction false} QuadEndsInDigit(t: string)
    requires MatchesDottedQuad(t)
    ensures |t| > 0 && IsDigit(t[|t| - 1])
  {
    var p := Split(t, '.');
    SplitLastCharacter(t, '.');
    assert IsDigit(p[3][|p[3]| - 1]);
  }

  /** A host name ends in a letter. */
  lemma {:induction false} HostEndsInLetter(t: string)
    requires MatchesHostName(t)
    ensures |t| > 0 && IsAsciiLetter(t[|t| - 1])
  {
    var p := Split(t, '.');
    var l := p[|p| - 1];
    SplitLastCharacter(t, '.');
    assert IsAsciiLetter(l[|l| - 1]);
  }

  /**
   * An answer that ends the loop of lines 39-47 passed exactly one of the two
   * checks: it is an IPv4 address or a host name, never both.
   */
  lemma {:induction false} ControllerAddressIsOneKind(s: string)
    requires IsControllerAddress(s)
    ensures IsIpv4Address(s) <==> !IsHostName(s)
  {
    if MatchesDottedQuad(s) {
      QuadEndsInDigit(s);
      AddressIsNotHostName(s);
    }
    if MatchesHostName(s) {
      HostEndsInLetter(s);
    }
    if |s| > 0 && MatchesDottedQuad(s[..|s| - 1]) {
      AddressIsNotHostName(s[..|s| - 1]);
    }
  }
}
