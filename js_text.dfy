/**
 * The small part of JavaScript's string handling the text parser relies on:
 * whitespace trimming, splitting on one character, splitting on runs of
 * whitespace or commas, base-10 parseInt of a token, and the decimal rendering
 * of a natural number.
 */
module JsText {
  import opened Wrappers

  /** The characters String.prototype.trim removes and the regular-expression class \s matches. */
  predicate IsJsSpace(ch: char) {
    || ch == ' ' || ch == '\t' || ch == '\n' || ch == '\r' || ch == '\U{000B}' || ch == '\U{000C}'
    || ch == '\U{00A0}' || ch == '\U{1680}' || ('\U{2000}' <= ch <= '\U{200A}')
    || ch == '\U{2028}' || ch == '\U{2029}' || ch == '\U{202F}' || ch == '\U{205F}'
    || ch == '\U{3000}' || ch == '\U{FEFF}'
  }

  /** A separator of the value pattern [\s,]+. */
  predicate IsValueSep(ch: char) {
    IsJsSpace(ch) || ch == ','
  }

  predicate IsDigit(ch: char) {
    '0' <= ch <= '9'
  }

  function TrimStart(s: string): (r: string)
    ensures |r| <= |s| && r == s[|s| - |r|..]
    ensures |r| > 0 ==> !IsJsSpace(r[0])
    ensures forall k :: 0 <= k < |s| - |r| ==> IsJsSpace(s[k])
    decreases |s|
  {
    if |s| > 0 && IsJsSpace(s[0]) then TrimStart(s[1..]) else s
  }

  function TrimEnd(s: string): (r: string)
    ensures |r| <= |s| && r == s[..|r|]
    ensures |r| > 0 ==> !IsJsSpace(r[|r| - 1])
    ensures forall k :: |r| <= k < |s| ==> IsJsSpace(s[k])
    decreases |s|
  {
    if |s| > 0 && IsJsSpace(s[|s| - 1]) then TrimEnd(s[..|s| - 1]) else s
  }

  /** String.prototype.trim. */
  function Trim(s: string): string {
    TrimEnd(TrimStart(s))
  }

  /** A string that neither starts nor ends with whitespace is its own trim. */
  lemma TrimUnchanged(s: string)
    requires |s| > 0 ==> !IsJsSpace(s[0]) && !IsJsSpace(s[|s| - 1])
    ensures Trim(s) == s
  {
  }

  /** A trimmed string is empty exactly when the input is all whitespace. */
  lemma {:induction false} TrimEmpty(s: string)
    ensures Trim(s) == "" <==> forall k :: 0 <= k < |s| ==> IsJsSpace(s[k])
    decreases |s|
  {
    if |s| > 0 && IsJsSpace(s[0]) {
      TrimEmpty(s[1..]);
      assert forall k :: 1 <= k < |s| ==> s[k] == s[1..][k - 1];
    } else if |s| > 0 {
      assert TrimStart(s) == s;
      assert TrimEnd(s)[..0] == "";
      if |TrimEnd(s)| == 0 {
        TrimEndAllSpace(s);
      }
    }
  }

  lemma {:induction false} TrimEndAllSpace(s: string)
    requires TrimEnd(s) == ""
    ensures forall k :: 0 <= k < |s| ==> IsJsSpace(s[k])
    decreases |s|
  {
    if |s| > 0 {
      TrimEndAllSpace(s[..|s| - 1]);
      assert forall k :: 0 <= k < |s| - 1 ==> s[k] == s[..|s| - 1][k];
    }
  }

  /** String.prototype.split with a one-character separator. */
  function SplitOn(s: string, sep: char): (parts: seq<string>)
    ensures |parts| >= 1
    decreases |s|
  {
    if |s| == 0 then [""]
    else if s[0] == sep then [""] + SplitOn(s[1..], sep)
    else
      var rest := SplitOn(s[1..], sep);
      [[s[0]] + rest[0]] + rest[1..]
  }

  /** The text of the parts with sep between neighbours (Array.prototype.join). */
  function Join(parts: seq<string>, sep: char): string
    decreases |parts|
  {
    if |parts| == 0 then ""
    else if |parts| == 1 then parts[0]
    else parts[0] + [sep] + Join(parts[1..], sep)
  }

  lemma {:induction false} SplitOnWord(w: string, sep: char, rest: string)
    requires forall k :: 0 <= k < |w| ==> w[k] != sep
    ensures SplitOn(w, sep) == [w]
    ensures SplitOn(w + [sep] + rest, sep) == [w] + SplitOn(rest, sep)
    decreases |w|
  {
    if |w| > 0 {
      SplitOnWord(w[1..], sep, rest);
      assert (w + [sep] + rest)[1..] == w[1..] + [sep] + rest;
      assert [w[0]] + w[1..] == w;
    } else {
      assert w + [sep] + rest == [sep] + rest;
    }
  }

  /** Splitting a join gives back the parts, when no part holds the separator. */
  lemma {:induction false} SplitJoin(parts: seq<string>, sep: char)
    requires |parts| >= 1
    requires forall i, k :: 0 <= i < |parts| && 0 <= k < |parts[i]| ==> parts[i][k] != sep
    ensures SplitOn(Join(parts, sep), sep) == parts
    decreases |parts|
  {
    SplitOnWord(parts[0], sep, "");
    if |parts| > 1 {
      SplitJoin(parts[1..], sep);
      SplitOnWord(parts[0], sep, Join(parts[1..], sep));
      assert [parts[0]] + parts[1..] == parts;
    }
  }

  /** Drops a leading run of value separators. */
  function SkipSeps(s: string): (r: string)
    ensures |r| <= |s|
    ensures |r| > 0 ==> !IsValueSep(r[0])
    decreases |s|
  {
    if |s| > 0 && IsValueSep(s[0]) then SkipSeps(s[1..]) else s
  }

  /**
   * String.prototype.split(/[\s,]+/): the pieces between maximal runs of
   * separators; a leading run gives an empty first piece, a trailing run an
   * empty last piece, and the empty string one empty piece.
   */
  function SplitValues(s: string): (parts: seq<string>)
    ensures |parts| >= 1
    decreases |s|
  {
    if |s| == 0 then [""]
    else if IsValueSep(s[0]) then [""] + SplitValues(SkipSeps(s))
    else
      var rest := SplitValues(s[1..]);
      [[s[0]] + rest[0]] + rest[1..]
  }

  lemma {:induction false} SplitValuesWord(w: string, rest: string)
    requires forall k :: 0 <= k < |w| ==> !IsValueSep(w[k])
    requires |rest| > 0 ==> !IsValueSep(rest[0])
    ensures SplitValues(w) == [w]
    ensures SplitValues(w + " " + rest) == [w] + SplitValues(rest)
    decreases |w|
  {
    if |w| > 0 {
      SplitValuesWord(w[1..], rest);
      assert (w + " " + rest)[1..] == w[1..] + " " + rest;
      assert [w[0]] + w[1..] == w;
    } else {
      assert w + " " + rest == " " + rest;
      assert SkipSeps(" " + rest) == SkipSeps(rest) == rest;
    }
  }

  /** Splitting tokens joined by single spaces gives back the tokens, when none is empty or holds a separator. */
  lemma {:induction false} SplitValuesJoin(tokens: seq<string>)
    requires |tokens| >= 1
    requires forall i :: 0 <= i < |tokens| ==> |tokens[i]| > 0
    requires forall i, k :: 0 <= i < |tokens| && 0 <= k < |tokens[i]| ==> !IsValueSep(tokens[i][k])
    ensures SplitValues(Join(tokens, ' ')) == tokens
    decreases |tokens|
  {
    SplitValuesWord(tokens[0], "");
    if |tokens| > 1 {
      SplitValuesJoin(tokens[1..]);
      var rest := Join(tokens[1..], ' ');
      assert rest[0] == tokens[1][0] by {
        JoinStartsWithFirst(tokens[1..], ' ');
      }
      SplitValuesWord(tokens[0], rest);
      assert [tokens[0]] + tokens[1..] == tokens;
    }
  }

  lemma {:induction false} JoinStartsWithFirst(parts: seq<string>, sep: char)
    requires |parts| >= 1 && |parts[0]| > 0
    ensures |Join(parts, sep)| > 0 && Join(parts, sep)[0] == parts[0][0]
  {
  }

  lemma {:induction false} JoinEndsWithLast(parts: seq<string>, sep: char)
    requires |parts| >= 1 && |parts[|parts| - 1]| > 0
    ensures |Join(parts, sep)| > 0 && Join(parts, sep)[|Join(parts, sep)| - 1] == parts[|parts| - 1][|parts[|parts| - 1]| - 1]
    decreases |parts|
  {
    if |parts| > 1 {
      JoinEndsWithLast(parts[1..], sep);
    }
  }

  /** Every character of a join comes from a part or is the separator. */
  lemma {:induction false} JoinChars(parts: seq<string>, sep: char, p: char -> bool)
    requires !p(sep)
    requires forall i, k :: 0 <= i < |parts| && 0 <= k < |parts[i]| ==> !p(parts[i][k])
    ensures forall k :: 0 <= k < |Join(parts, sep)| ==> !p(Join(parts, sep)[k])
    decreases |parts|
  {
    if |parts| > 1 {
      JoinChars(parts[1..], sep, p);
      var tail := Join(parts[1..], sep);
      var s := parts[0] + [sep] + tail;
      forall k | 0 <= k < |s| ensures !p(s[k]) {
        if k < |parts[0]| {
          assert s[k] == parts[0][k];
        } else if k > |parts[0]| {
          assert s[k] == tail[k - |parts[0]| - 1];
        }
      }
    }
  }

  function DigitValue(ch: char): int
    requires IsDigit(ch)
  {
    ch as int - '0' as int
  }

  /** The value of a string of decimal digits, most significant first. */
  function DigitsValue(ds: string): int
    requires forall k :: 0 <= k < |ds| ==> IsDigit(ds[k])
    decreases |ds|
  {
    if |ds| == 0 then 0
    else DigitsValue(ds[..|ds| - 1]) * 10 + DigitValue(ds[|ds| - 1])
  }

  /** The longest prefix made of decimal digits. */
  function LeadingDigits(s: string): (ds: string)
    ensures |ds| <= |s| && ds == s[..|ds|]
    ensures forall k :: 0 <= k < |ds| ==> IsDigit(ds[k])
    ensures |ds| < |s| ==> !IsDigit(s[|ds|])
    decreases |s|
  {
    if |s| > 0 && IsDigit(s[0]) then [s[0]] + LeadingDigits(s[1..]) else ""
  }

  /**
   * parseInt(s, 10): skip leading whitespace, read an optional sign, then the
   * longest run of decimal digits; no digits at all is NaN (None).
   */
  function ParseInt(s: string): (r: Option<int>)
    ensures r.Some? <==> |LeadingDigits(DropSign(TrimStart(s)))| > 0
  {
    var t := TrimStart(s);
    var negative := |t| > 0 && t[0] == '-';
    var ds := LeadingDigits(DropSign(t));
    if |ds| == 0 then None
    else if negative then Some(-DigitsValue(ds))
    else Some(DigitsValue(ds))
  }

  function DropSign(t: string): string {
    if |t| > 0 && (t[0] == '-' || t[0] == '+') then t[1..] else t
  }

  function DigitChar(d: int): (ch: char)
    requires 0 <= d <= 9
    ensures IsDigit(ch) && DigitValue(ch) == d
  {
    ('0' as int + d) as char
  }

  /** The decimal text of n (Number.prototype.toString for a natural number). */
  function NatToString(n: nat): (s: string)
    ensures |s| > 0
    ensures forall k :: 0 <= k < |s| ==> IsDigit(s[k])
    decreases n
  {
    if n < 10 then [DigitChar(n)] else NatToString(n / 10) + [DigitChar(n % 10)]
  }

  lemma {:induction false} NatToStringValue(n: nat)
    ensures DigitsValue(NatToString(n)) == n
    decreases n
  {
    if n >= 10 {
      NatToStringValue(n / 10);
      var s := NatToString(n);
      assert s[..|s| - 1] == NatToString(n / 10);
    }
  }

  lemma {:induction false} LeadingDigitsAll(s: string)
    requires forall k :: 0 <= k < |s| ==> IsDigit(s[k])
    ensures LeadingDigits(s) == s
    decreases |s|
  {
    if |s| > 0 {
      LeadingDigitsAll(s[1..]);
    }
  }

  /** parseInt reads back the decimal text of every natural number. */
  lemma ParseIntNatToString(n: nat)
    ensures ParseInt(NatToString(n)) == Some(n)
  {
    var s := NatToString(n);
    assert IsDigit(s[0]);
    TrimStartKeeps(s);
    assert DropSign(s) == s;
    LeadingDigitsAll(s);
    NatToStringValue(n);
  }

  /** Text that does not start with white space is left alone by trimStart. */
  lemma TrimStartKeeps(s: string)
    requires |s| > 0 && !IsJsSpace(s[0])
    ensures TrimStart(s) == s
  {
  }

  /** Decimal text holds no whitespace and no comma. */
  lemma DigitsAvoidSeps(s: string)
    requires forall k :: 0 <= k < |s| ==> IsDigit(s[k])
    ensures forall k :: 0 <= k < |s| ==> !IsValueSep(s[k]) && s[k] != '\n'
  {
  }
}
