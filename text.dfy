/**
 * Character classes, whitespace removal, splitting on a separator and the
 * integer literals Python's int() accepts, restricted to ASCII.
 */
module Text {
  import opened Wrappers

  /** An ASCII decimal digit (the ASCII part of `\d`). */
  predicate IsDigit(c: char) {
    '0' <= c <= '9'
  }

  /**
   * The characters that `\s` in a str pattern, str.strip() and str.isspace()
   * treat as whitespace: Python's whitespace table, which holds the ASCII
   * separators U+0009-U+000D and U+001C-U+0020 and the Unicode spaces and
   * line separators.
   */
  predicate IsWhitespace(c: char) {
    || ('\t' <= c <= '\r') || ('\U{1C}' <= c <= ' ')
    || c == '\U{85}' || c == '\U{A0}' || c == '\U{1680}'
    || ('\U{2000}' <= c <= '\U{200A}') || c == '\U{2028}' || c == '\U{2029}'
    || c == '\U{202F}' || c == '\U{205F}' || c == '\U{3000}'
  }

  /**
   * The characters int() skips around a literal. It first turns every
   * non-ASCII whitespace character into a space and leaves ASCII as it is,
   * then skips only the six characters of C's isspace(): so U+001C-U+001F,
   * which str.strip() removes, make int() fail.
   */
  predicate IsIntSpace(c: char) {
    IsWhitespace(c) && !('\U{1C}' <= c <= '\U{1F}')
  }

  predicate AllDigits(s: string) {
    forall i :: 0 <= i < |s| ==> IsDigit(s[i])
  }

  predicate NoWhitespace(s: string) {
    forall i :: 0 <= i < |s| ==> !IsWhitespace(s[i])
  }

  predicate AllWhitespace(s: string) {
    forall i :: 0 <= i < |s| ==> IsWhitespace(s[i])
  }

  /** `re.sub(r'\s+', '', s)`: the string with every whitespace character deleted. */
  function RemoveWhitespace(s: string): (r: string)
    ensures NoWhitespace(r)
    ensures |r| <= |s|
    ensures forall c {:trigger c in r} :: c in r ==> c in s
  {
    if |s| == 0 then ""
    else (if IsWhitespace(s[0]) then "" else [s[0]]) + RemoveWhitespace(s[1..])
  }

  lemma {:induction false} RemoveWhitespaceConcat(a: string, b: string)
    ensures RemoveWhitespace(a + b) == RemoveWhitespace(a) + RemoveWhitespace(b)
  {
    if |a| == 0 {
      assert a + b == b;
    } else {
      assert (a + b)[1..] == a[1..] + b;
      RemoveWhitespaceConcat(a[1..], b);
    }
  }

  lemma {:induction false} RemoveWhitespaceKeeps(s: string)
    requires NoWhitespace(s)
    ensures RemoveWhitespace(s) == s
  {
    if |s| > 0 {
      RemoveWhitespaceKeeps(s[1..]);
    }
  }

  lemma {:induction false} RemoveWhitespaceErases(s: string)
    requires AllWhitespace(s)
    ensures RemoveWhitespace(s) == ""
  {
    if |s| > 0 {
      RemoveWhitespaceErases(s[1..]);
    }
  }

  /** `s.lstrip()`: the longest suffix of `s` that does not start with whitespace. */
  function TrimLeft(s: string): (r: string)
    ensures |r| <= |s| && r == s[|s| - |r|..]
    ensures AllWhitespace(s[..|s| - |r|])
    ensures |r| > 0 ==> !IsWhitespace(r[0])
  {
    if |s| > 0 && IsWhitespace(s[0]) then TrimLeft(s[1..]) else s
  }

  /** lstrip() removes a leading run of whitespace and stops at the first other character. */
  lemma {:induction false} TrimLeftPastWhitespace(w: string, b: string)
    requires AllWhitespace(w) && (|b| == 0 || !IsWhitespace(b[0]))
    ensures TrimLeft(w + b) == b
  {
    if |w| == 0 {
      assert w + b == b;
    } else {
      assert (w + b)[0] == w[0] && (w + b)[1..] == w[1..] + b;
      TrimLeftPastWhitespace(w[1..], b);
    }
  }

  /** `s.rstrip()`: the longest prefix of `s` that does not end with whitespace. */
  function TrimRight(s: string): (r: string)
    ensures |r| <= |s| && r == s[..|r|]
    ensures AllWhitespace(s[|r|..])
    ensures |r| > 0 ==> !IsWhitespace(r[|r| - 1])
  {
    if |s| > 0 && IsWhitespace(s[|s| - 1]) then TrimRight(s[..|s| - 1]) else s
  }


  lemma {:induction false} RemoveWhitespaceTrimLeft(s: string)
    ensures RemoveWhitespace(TrimLeft(s)) == RemoveWhitespace(s)
  {
    var r := TrimLeft(s);
    var p := s[..|s| - |r|];
    assert s == p + r;
    RemoveWhitespaceConcat(p, r);
    RemoveWhitespaceErases(p);
  }

  lemma {:induction false} RemoveWhitespaceTrimRight(s: string)
    ensures RemoveWhitespace(TrimRight(s)) == RemoveWhitespace(s)
  {
    var r := TrimRight(s);
    var p := s[|r|..];
    assert s == r + p;
    RemoveWhitespaceConcat(r, p);
    RemoveWhitespaceErases(p);
  }

  lemma {:induction false} RemoveWhitespaceLeavesTrimmedWord(s: string)
    requires NoWhitespace(TrimLeft(s))
    ensures RemoveWhitespace(s) == TrimLeft(s)
  {
    RemoveWhitespaceTrimLeft(s);
    RemoveWhitespaceKeeps(TrimLeft(s));
  }

  lemma {:induction false} RemoveWhitespaceAround(a: string, m: string, b: string)
    ensures RemoveWhitespace(a + m + b) == RemoveWhitespace(a) + RemoveWhitespace(m) + RemoveWhitespace(b)
  {
    RemoveWhitespaceConcat(a + m, b);
    RemoveWhitespaceConcat(a, m);
  }

  /** The space after a comma goes; the comma stays. */
  lemma {:induction false} RemoveWhitespaceCommaSpace(a: string, b: string)
    requires NoWhitespace(b)
    ensures RemoveWhitespace(a + ", " + b) == RemoveWhitespace(a) + "," + b
  {
    RemoveWhitespaceAround(a, ", ", b);
    RemoveWhitespaceKeeps(b);
    assert RemoveWhitespace(", ") == ",";
  }

  lemma {:induction false} RemoveWhitespaceDash(a: string, b: string)
    requires NoWhitespace(b)
    ensures RemoveWhitespace(a + "-" + b) == RemoveWhitespace(a) + "-" + b
  {
    RemoveWhitespaceAround(a, "-", b);
    RemoveWhitespaceKeeps(b);
    assert RemoveWhitespace("-") == "-";
  }

  lemma {:induction false} RemoveWhitespaceCons(c: char, s: string)
    requires !IsWhitespace(c)
    ensures RemoveWhitespace([c] + s) == [c] + RemoveWhitespace(s)
  {
    assert ([c] + s)[1..] == s;
  }

  /**
   * `s.split(sep)`: the maximal pieces between occurrences of `sep`, empty
   * pieces included, so there is always one more piece than separators.
   */
  function Split(s: string, sep: char): (r: seq<string>)
    ensures |r| >= 1
    ensures forall k :: 0 <= k < |r| ==> sep !in r[k]
  {
    if |s| == 0 then [""]
    else
      var rest := Split(s[1..], sep);
      if s[0] == sep then [""] + rest
      else [[s[0]] + rest[0]] + rest[1..]
  }

  /** `sep.join(parts)`. */
  function Join(parts: seq<string>, sep: char): string
    requires |parts| >= 1
  {
    if |parts| == 1 then parts[0] else parts[0] + [sep] + Join(parts[1..], sep)
  }

  /** A join ends with its last part. */
  lemma {:induction false} JoinEndsWithLast(parts: seq<string>, sep: char)
    requires |parts| >= 1
    ensures var j := Join(parts, sep); var l := parts[|parts| - 1];
      |l| <= |j| && j[|j| - |l|..] == l
  {
    if |parts| > 1 {
      JoinEndsWithLast(parts[1..], sep);
      var j' := Join(parts[1..], sep);
      var l := parts[|parts| - 1];
      assert parts[1..][|parts[1..]| - 1] == l;
      var j := Join(parts, sep);
      assert j == parts[0] + [sep] + j';
      assert j[|j| - |l|..] == j'[|j'| - |l|..];
    }
  }

  /** The last character of a string is that of its last piece, when that piece is not empty. */
  lemma {:induction false} SplitLastCharacter(s: string, sep: char)
    requires var p := Split(s, sep); |p[|p| - 1]| > 0
    ensures var p := Split(s, sep); var l := p[|p| - 1];
      |s| > 0 && s[|s| - 1] == l[|l| - 1]
  {
    var p := Split(s, sep);
    JoinSplit(s, sep);
    JoinEndsWithLast(p, sep);
    var l := p[|p| - 1];
    assert s[|s| - |l|..][|l| - 1] == s[|s| - 1];
  }

  lemma {:induction false} NoWhitespaceAround(a: string, c: char, b: string)
    requires NoWhitespace(a) && !IsWhitespace(c) && NoWhitespace(b)
    ensures NoWhitespace(a + [c] + b)
  {
    var t := a + [c] + b;
    forall i | 0 <= i < |t| ensures !IsWhitespace(t[i]) {
      if i < |a| {
        assert t[i] == a[i];
      } else if i > |a| {
        assert t[i] == b[i - |a| - 1];
      }
    }
  }

  lemma {:induction false} JoinKeepsNoWhitespace(parts: seq<string>, sep: char)
    requires |parts| >= 1 && !IsWhitespace(sep)
    requires forall k :: 0 <= k < |parts| ==> NoWhitespace(parts[k])
    ensures NoWhitespace(Join(parts, sep))
  {
    if |parts| > 1 {
      JoinKeepsNoWhitespace(parts[1..], sep);
      var rest := Join(parts[1..], sep);
      assert forall i :: 0 <= i < |rest| ==> !IsWhitespace(rest[i]);
      assert forall i :: 0 <= i < |parts[0]| ==> !IsWhitespace(parts[0][i]);
    }
  }

  /** Splitting and joining again gives back the original string. */
  lemma {:induction false} JoinSplit(s: string, sep: char)
    ensures Join(Split(s, sep), sep) == s
  {
    if |s| > 0 {
      var rest := Split(s[1..], sep);
      JoinSplit(s[1..], sep);
      if s[0] == sep {
        assert ([""] + rest)[1..] == rest;
      } else {
        var r := Split(s, sep);
        if |rest| == 1 {
          assert r == [[s[0]] + rest[0]];
        } else {
          assert r[1..] == rest[1..];
          assert Join(rest, sep) == rest[0] + [sep] + Join(rest[1..], sep);
        }
      }
    }
  }

  /** Joining pieces that hold no separator and splitting again gives back the pieces. */
  lemma {:induction false} SplitJoin(parts: seq<string>, sep: char)
    requires |parts| >= 1 && forall k :: 0 <= k < |parts| ==> sep !in parts[k]
    ensures Split(Join(parts, sep), sep) == parts
  {
    if |parts| == 1 {
      SplitWithoutSeparator(parts[0], sep);
    } else {
      SplitJoin(parts[1..], sep);
      SplitAtFirstSeparator(parts[0], sep, Join(parts[1..], sep));
      assert parts == [parts[0]] + parts[1..];
    }
  }

  lemma {:induction false} SplitWithoutSeparator(s: string, sep: char)
    requires sep !in s
    ensures Split(s, sep) == [s]
  {
    if |s| > 0 {
      SplitWithoutSeparator(s[1..], sep);
      assert [s[0]] + s[1..] == s;
    }
  }

  lemma {:induction false} SplitAtFirstSeparator(a: string, sep: char, b: string)
    requires sep !in a
    ensures Split(a + [sep] + b, sep) == [a] + Split(b, sep)
  {
    if |a| == 0 {
      assert [sep] + b == a + [sep] + b;
      assert ([sep] + b)[1..] == b;
    } else {
      assert (a + [sep] + b)[1..] == a[1..] + [sep] + b;
      SplitAtFirstSeparator(a[1..], sep, b);
      assert [a[0]] + a[1..] == a;
    }
  }

  /** Two pieces without the separator, joined by it, split back into those two. */
  lemma {:induction false} SplitPair(a: string, sep: char, b: string)
    requires sep !in a && sep !in b
    ensures Split(a + [sep] + b, sep) == [a, b]
  {
    SplitAtFirstSeparator(a, sep, b);
    SplitWithoutSeparator(b, sep);
  }

  lemma {:induction false} SplitHasTwoPieces(s: string, sep: char)
    requires sep in s
    ensures |Split(s, sep)| >= 2
  {
    if s[0] != sep {
      SplitHasTwoPieces(s[1..], sep);
    }
  }

  /** `[re.sub(r'\s+', '', p) for p in ps]`. */
  function RemoveWhitespaceEach(ps: seq<string>): (r: seq<string>)
    ensures |r| == |ps|
    ensures forall k :: 0 <= k < |ps| ==> r[k] == RemoveWhitespace(ps[k])
  {
    if |ps| == 0 then [] else [RemoveWhitespace(ps[0])] + RemoveWhitespaceEach(ps[1..])
  }

  /** Removing whitespace before splitting on a non-whitespace separator is removing it from every piece. */
  lemma {:induction false} SplitRemoveWhitespace(s: string, sep: char)
    requires !IsWhitespace(sep)
    ensures Split(RemoveWhitespace(s), sep) == RemoveWhitespaceEach(Split(s, sep))
  {
    if |s| > 0 {
      SplitRemoveWhitespace(s[1..], sep);
      if IsWhitespace(s[0]) {
        SplitRemoveWhitespaceDrop(s, sep);
      } else if s[0] == sep {
        SplitRemoveWhitespaceAtSeparator(s, sep);
      } else {
        SplitRemoveWhitespaceKeep(s, sep);
      }
    }
  }

  lemma {:induction false} SplitRemoveWhitespaceDrop(s: string, sep: char)
    requires |s| > 0 && IsWhitespace(s[0]) && !IsWhitespace(sep)
    requires Split(RemoveWhitespace(s[1..]), sep) == RemoveWhitespaceEach(Split(s[1..], sep))
    ensures Split(RemoveWhitespace(s), sep) == RemoveWhitespaceEach(Split(s, sep))
  {
    var rest := Split(s[1..], sep);
    assert RemoveWhitespace(s) == RemoveWhitespace(s[1..]);
    assert ([s[0]] + rest[0])[1..] == rest[0];
    assert RemoveWhitespace([s[0]] + rest[0]) == RemoveWhitespace(rest[0]);
  }

  lemma {:induction false} SplitRemoveWhitespaceAtSeparator(s: string, sep: char)
    requires |s| > 0 && s[0] == sep && !IsWhitespace(sep)
    requires Split(RemoveWhitespace(s[1..]), sep) == RemoveWhitespaceEach(Split(s[1..], sep))
    ensures Split(RemoveWhitespace(s), sep) == RemoveWhitespaceEach(Split(s, sep))
  {
    var t := RemoveWhitespace(s);
    assert t == [sep] + RemoveWhitespace(s[1..]);
    assert t[0] == sep && t[1..] == RemoveWhitespace(s[1..]);
  }

  lemma {:induction false} SplitRemoveWhitespaceKeep(s: string, sep: char)
    requires |s| > 0 && s[0] != sep && !IsWhitespace(s[0]) && !IsWhitespace(sep)
    requires Split(RemoveWhitespace(s[1..]), sep) == RemoveWhitespaceEach(Split(s[1..], sep))
    ensures Split(RemoveWhitespace(s), sep) == RemoveWhitespaceEach(Split(s, sep))
  {
    var rest := Split(s[1..], sep);
    var t := RemoveWhitespace(s);
    assert t == [s[0]] + RemoveWhitespace(s[1..]);
    assert t[0] == s[0] && t[1..] == RemoveWhitespace(s[1..]);
    RemoveWhitespaceCons(s[0], rest[0]);
  }

  function DigitValue(c: char): nat
    requires IsDigit(c)
  {
    (c as int) - ('0' as int)
  }

  /** The value of a string of decimal digits, most significant first. */
  function DecimalValue(s: string): nat
    requires AllDigits(s)
  {
    if |s| == 0 then 0 else DecimalValue(s[..|s| - 1]) * 10 + DigitValue(s[|s| - 1])
  }

  /** `str(n)` for a natural number: its shortest decimal rendering. */
  function NatToString(n: nat): (r: string)
    ensures |r| >= 1 && AllDigits(r)
    ensures DecimalValue(r) == n
    ensures |r| > 1 ==> r[0] != '0'
  {
    var last := [('0' as int + n % 10) as char];
    if n < 10 then last
    else
      var prefix := NatToString(n / 10);
      assert (prefix + last)[..|prefix + last| - 1] == prefix;
      prefix + last
  }

  /** The digit groups int() accepts: `digit ("_"? digit)*`. */
  predicate IsDigitGroup(s: string) {
    && |s| > 0 && IsDigit(s[0]) && IsDigit(s[|s| - 1])
    && (forall i :: 0 <= i < |s| ==> IsDigit(s[i]) || s[i] == '_')
    && (forall i :: 0 <= i < |s| - 1 ==> !(s[i] == '_' && s[i + 1] == '_'))
  }

  function DropUnderscores(s: string): (r: string)
    requires forall i :: 0 <= i < |s| ==> IsDigit(s[i]) || s[i] == '_'
    ensures AllDigits(r)
    ensures AllDigits(s) ==> r == s
  {
    if |s| == 0 then "" else (if s[0] == '_' then "" else [s[0]]) + DropUnderscores(s[1..])
  }

  function Magnitude(s: string): Option<nat> {
    if IsDigitGroup(s) then Some(DecimalValue(DropUnderscores(s))) else None
  }

  /** What int() reads of its argument: `s` without the characters it skips at either end. */
  function IntStrip(s: string): (r: string)
    ensures |r| <= |s|
    ensures |r| > 0 ==> !IsIntSpace(r[0]) && !IsIntSpace(r[|r| - 1])
    decreases |s|
  {
    if |s| > 0 && IsIntSpace(s[0]) then IntStrip(s[1..])
    else if |s| > 0 && IsIntSpace(s[|s| - 1]) then IntStrip(s[..|s| - 1])
    else s
  }

  /** IntStrip removes exactly the padding int() skips: what lies between is kept as it is. */
  lemma {:induction false} IntStripPadding(w1: string, m: string, w2: string)
    requires forall i :: 0 <= i < |w1| ==> IsIntSpace(w1[i])
    requires forall i :: 0 <= i < |w2| ==> IsIntSpace(w2[i])
    requires |m| == 0 || (!IsIntSpace(m[0]) && !IsIntSpace(m[|m| - 1]))
    ensures IntStrip(w1 + m + w2) == m
    decreases |w1| + |w2|
  {
    var s := w1 + m + w2;
    if |w1| > 0 {
      assert s[0] == w1[0] && s[1..] == w1[1..] + m + w2;
      IntStripPadding(w1[1..], m, w2);
    } else if |m| == 0 && |w2| > 0 {
      assert s == "" + "" + w2 && s[0] == w2[0] && s[1..] == "" + "" + w2[1..];
      IntStripPadding("", "", w2[1..]);
    } else if |w2| > 0 {
      assert s[0] == m[0] && s[|s| - 1] == w2[|w2| - 1];
      assert s[..|s| - 1] == w1 + m + w2[..|w2| - 1];
      IntStripPadding(w1, m, w2[..|w2| - 1]);
    } else {
      assert s == m;
    }
  }

  /**
   * `int(s)` on a string with no '-' in it: padding int() skips, an optional
   * '+', then a digit group. Every call site in the model passes a string
   * without '-', where this is exactly int(); None is the ValueError.
   */
  function UnsignedLiteral(s: string): Option<nat> {
    var t := IntStrip(s);
    if |t| > 0 && t[0] == '+' then Magnitude(t[1..]) else Magnitude(t)
  }

  /** `int(s)` with its sign: None is the ValueError int() raises. */
  function IntLiteral(s: string): Option<int> {
    var t := IntStrip(s);
    if |t| > 0 && t[0] == '-' then
      match Magnitude(t[1..])
      case Some(m) => Some(0 - m)
      case None => None
    else
      match UnsignedLiteral(s)
      case Some(m) => Some(m)
      case None => None
  }

  lemma {:induction false} DigitGroupOfDigits(s: string)
    requires |s| > 0 && AllDigits(s)
    ensures IsDigitGroup(s) && DropUnderscores(s) == s
  {
  }

  /** A non-empty digit string is read by int() as its decimal value. */
  lemma {:induction false} DigitsAreUnsignedLiteral(s: string)
    requires |s| > 0 && AllDigits(s)
    ensures UnsignedLiteral(s) == Some(DecimalValue(s))
    ensures IntLiteral(s) == Some(DecimalValue(s))
  {
    assert IntStrip(s) == s by {
      assert !IsIntSpace(s[0]) && !IsIntSpace(s[|s| - 1]);
    }
    DigitGroupOfDigits(s);
    assert Magnitude(s) == Some(DecimalValue(s));
  }

  /**
   * U+001C to U+001F before a number make int() fail, although str.strip()
   * and `\s` treat them as whitespace.
   */
  lemma {:induction false} SeparatorBeforeNumberIsRefused(c: char, d: string)
    requires '\U{1C}' <= c <= '\U{1F}' && |d| > 0 && AllDigits(d)
    ensures IntLiteral([c] + d).None?
  {
    var s := [c] + d;
    assert s[0] == c && s[|s| - 1] == d[|d| - 1] && IsDigit(d[|d| - 1]);
    assert IntStrip(s) == s;
    assert !IsDigitGroup(s);
  }

  /** The same after a number. */
  lemma {:induction false} SeparatorAfterNumberIsRefused(d: string, c: char)
    requires '\U{1C}' <= c <= '\U{1F}' && |d| > 0 && AllDigits(d)
    ensures IntLiteral(d + [c]).None?
  {
    var s := d + [c];
    assert s[0] == d[0] && IsDigit(d[0]) && s[|s| - 1] == c;
    assert IntStrip(s) == s;
    assert !IsDigitGroup(s);
  }

  /** Other whitespace around a number, Unicode spaces included, is skipped by int(). */
  lemma {:induction false} PaddedNumber(w1: string, d: string, w2: string)
    requires forall i :: 0 <= i < |w1| ==> IsIntSpace(w1[i])
    requires forall i :: 0 <= i < |w2| ==> IsIntSpace(w2[i])
    requires |d| > 0 && AllDigits(d)
    ensures IntLiteral(w1 + d + w2) == Some(DecimalValue(d))
  {
    IntStripPadding(w1, d, w2);
    DigitsAreUnsignedLiteral(d);
  }

  /** `int(str(n)) == n`. */
  lemma {:induction false} UnsignedLiteralOfNatToString(n: nat)
    ensures UnsignedLiteral(NatToString(n)) == Some(n)
  {
    DigitsAreUnsignedLiteral(NatToString(n));
  }
}
