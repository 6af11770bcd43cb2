/** The JavaScript string operations the sync tool relies on:
    `startsWith`, `endsWith`, `trim() === ''`, `split` on one character,
    `join`, and decimal rendering of a non-negative number. */
module Strings {

  predicate StartsWith(s: string, prefix: string)
  {
    |prefix| <= |s| && s[..|prefix|] == prefix
  }

  predicate EndsWith(s: string, suffix: string)
  {
    |suffix| <= |s| && s[|s| - |suffix|..] == suffix
  }

  /** The characters `String.prototype.trim` removes: ECMAScript white space
      and line terminators. */
  predicate IsJsWhitespace(c: char)
  {
    c in {'\t', '\n', '\U{B}', '\U{C}', '\r', ' ', '\U{A0}', '\U{1680}',
          '\U{2000}', '\U{2001}', '\U{2002}', '\U{2003}', '\U{2004}', '\U{2005}',
          '\U{2006}', '\U{2007}', '\U{2008}', '\U{2009}', '\U{200A}',
          '\U{2028}', '\U{2029}', '\U{202F}', '\U{205F}', '\U{3000}', '\U{FEFF}'}
  }

  /** `s.trim() === ''`: nothing but white space (the empty string included). */
  predicate IsBlank(s: string)
  {
    forall i :: 0 <= i < |s| ==> IsJsWhitespace(s[i])
  }

  /** `s.split(sep)` for a one-character separator: the maximal
      separator-free pieces, always at least one (`"".split('/')` is `[""]`). */
  function Split(s: string, sep: char): (parts: seq<string>)
    ensures |parts| >= 1
    ensures forall i :: 0 <= i < |parts| ==> sep !in parts[i]
  {
    if |s| == 0 then [""]
    else
      var rest := Split(s[1..], sep);
      if s[0] == sep then [""] + rest
      else [[s[0]] + rest[0]] + rest[1..]
  }

  /** `parts.join(sep)`; the empty list joins to the empty string. */
  function Join(parts: seq<string>, sep: string): string
  {
    if |parts| == 0 then ""
    else if |parts| == 1 then parts[0]
    else parts[0] + sep + Join(parts[1..], sep)
  }

  /** Splitting and joining again with the same separator gives back the string. */
  lemma {:induction false} JoinSplit(s: string, sep: char)
    ensures Join(Split(s, sep), [sep]) == s
  {
    if |s| > 0 {
      var rest := Split(s[1..], sep);
      JoinSplit(s[1..], sep);
      if s[0] == sep {
        assert Join([""] + rest, [sep]) == "" + [sep] + Join(rest, [sep]) by {
          assert ([""] + rest)[1..] == rest;
        }
        assert s == [s[0]] + s[1..];
      } else if |rest| == 1 {
        assert s == [s[0]] + s[1..];
      } else {
        var head := [s[0]] + rest[0];
        assert ([head] + rest[1..])[1..] == rest[1..];
        assert Join(rest, [sep]) == rest[0] + [sep] + Join(rest[1..], [sep]);
        assert s == [s[0]] + s[1..];
      }
    }
  }

  /** A string without the separator splits into itself alone. */
  lemma {:induction false} SplitSeparatorFree(s: string, sep: char)
    requires sep !in s
    ensures Split(s, sep) == [s]
  {
    if |s| > 0 {
      assert sep !in s[1..] by {
        forall i | 0 <= i < |s[1..]| ensures s[1..][i] != sep {
          assert s[1..][i] == s[i + 1];
        }
      }
      SplitSeparatorFree(s[1..], sep);
      assert [s[0]] + s[1..] == s;
    }
  }

  /** Splitting `a + sep + b` where `a` holds no separator cuts exactly after `a`. */
  lemma {:induction false} SplitAfterPiece(a: string, sep: char, b: string)
    requires sep !in a
    ensures Split(a + [sep] + b, sep) == [a] + Split(b, sep)
  {
    var s := a + [sep] + b;
    if |a| == 0 {
      assert s == [sep] + b;
      assert s[1..] == b;
    } else {
      assert s[1..] == a[1..] + [sep] + b;
      assert sep !in a[1..] by {
        forall i | 0 <= i < |a[1..]| ensures a[1..][i] != sep {
          assert a[1..][i] == a[i + 1];
        }
      }
      SplitAfterPiece(a[1..], sep, b);
      assert [a[0]] + a[1..] == a;
    }
  }

  /** `t` occurs in `s` starting at position `k`. */
  predicate OccursAt(t: string, s: string, k: int)
  {
    0 <= k && k + |t| <= |s| && s[k..k + |t|] == t
  }

  /** `t` occurs in `s` as a contiguous piece (JavaScript's `s.includes(t)`). */
  ghost predicate IsInfix(t: string, s: string)
  {
    exists k :: OccursAt(t, s, k)
  }

  /** Every joined part occurs in the joined string. */
  lemma {:induction false} JoinContainsPart(parts: seq<string>, sep: string, i: nat)
    requires i < |parts|
    ensures IsInfix(parts[i], Join(parts, sep))
  {
    var joined := Join(parts, sep);
    if |parts| == 1 {
      assert OccursAt(parts[0], joined, 0);
    } else if i == 0 {
      assert joined == parts[0] + (sep + Join(parts[1..], sep));
      assert OccursAt(parts[0], joined, 0);
    } else {
      JoinContainsPart(parts[1..], sep, i - 1);
      var tail := Join(parts[1..], sep);
      var k :| OccursAt(parts[i], tail, k);
      var off := |parts[0]| + |sep|;
      assert joined == (parts[0] + sep) + tail;
      assert joined[off + k..off + k + |parts[i]|] == tail[k..k + |parts[i]|];
      assert OccursAt(parts[i], joined, off + k);
    }
  }

  function DigitChar(d: nat): (c: char)
    requires d < 10
    ensures '0' <= c <= '9'
  {
    "0123456789"[d]
  }

  /** Decimal rendering of a non-negative number, as a template literal prints it. */
  function DecimalString(n: nat): (s: string)
    ensures |s| >= 1
    ensures (|s| == 1) == (n < 10)
    ensures forall i :: 0 <= i < |s| ==> '0' <= s[i] <= '9'
  {
    if n < 10 then [DigitChar(n)] else DecimalString(n / 10) + [DigitChar(n % 10)]
  }

  /** Distinct numbers render differently. */
  lemma {:induction false} DecimalStringInjective(m: nat, n: nat)
    requires DecimalString(m) == DecimalString(n)
    ensures m == n
  {
    var s := DecimalString(m);
    if m >= 10 && n >= 10 {
      assert s[..|s| - 1] == DecimalString(m / 10) && s[..|s| - 1] == DecimalString(n / 10);
      DecimalStringInjective(m / 10, n / 10);
      assert "0123456789"[m % 10] == "0123456789"[n % 10];
    } else if m < 10 && n < 10 {
      assert "0123456789"[m] == "0123456789"[n];
    }
  }
}
