/**
 * The string operations dialog.cpp borrows from QString: split on a separator
 * with empty parts kept, lastIndexOf, and the decimal rendering QString::arg
 * gives an int.  Strings are already-decoded sequences of characters.
 */
module Text {

  /** A separator-free piece of text: the shape of every part split produces. */
  predicate Free(s: string, sep: char) {
    sep !in s
  }

  /**
   * QString::split(sep) with the default KeepEmptyParts: the pieces of s
   * between consecutive separators, in order; there is always at least one.
   */
  function Split(s: string, sep: char): (parts: seq<string>)
    ensures |parts| >= 1
    ensures forall i :: 0 <= i < |parts| ==> Free(parts[i], sep)
    ensures Join(parts, sep) == s
    decreases |s|
  {
    if s == [] then [""]
    else
      var rest := Split(s[1..], sep);
      if s[0] == sep then
        assert [sep] + Join(rest, sep) == s;
        [""] + rest
      else
        var parts := [[s[0]] + rest[0]] + rest[1..];
        assert Join(parts, sep) == [s[0]] + Join(rest, sep) by {
          if |rest| > 1 {
            assert parts[1..] == rest[1..];
          }
        }
        parts
  }

  /** The inverse of Split: the parts with one separator between neighbours. */
  function Join(parts: seq<string>, sep: char): string
    requires |parts| >= 1
  {
    if |parts| == 1 then parts[0] else parts[0] + [sep] + Join(parts[1..], sep)
  }

  /** Every line followed by its separator: the text that a list of complete lines came from. */
  function Terminated(lines: seq<string>, sep: char): string {
    if lines == [] then [] else lines[0] + [sep] + Terminated(lines[1..], sep)
  }

  lemma {:induction false} TerminatedAppend(a: seq<string>, b: seq<string>, sep: char)
    ensures Terminated(a + b, sep) == Terminated(a, sep) + Terminated(b, sep)
  {
    if a == [] {
      assert a + b == b;
    } else {
      assert (a + b)[1..] == a[1..] + b;
      TerminatedAppend(a[1..], b, sep);
    }
  }

  /** A joined list is its complete lines, each terminated, followed by the last part. */
  lemma {:induction false} JoinIsTerminatedPlusLast(parts: seq<string>, sep: char)
    requires |parts| >= 1
    ensures Join(parts, sep) == Terminated(parts[..|parts| - 1], sep) + parts[|parts| - 1]
  {
    if |parts| > 1 {
      JoinIsTerminatedPlusLast(parts[1..], sep);
      assert parts[1..][..|parts| - 2] == parts[..|parts| - 1][1..];
    }
  }

  /** Splitting text that starts with a separator-free prefix glues that prefix to the first part. */
  lemma {:induction false} SplitAfterFreePrefix(a: string, t: string, sep: char)
    requires Free(a, sep)
    ensures Split(a + t, sep) == [a + Split(t, sep)[0]] + Split(t, sep)[1..]
    decreases |a|
  {
    if a == [] {
      var parts := Split(t, sep);
      assert a + t == t;
      assert a + parts[0] == parts[0];
      assert [parts[0]] + parts[1..] == parts;
    } else {
      assert (a + t)[1..] == a[1..] + t;
      SplitAfterFreePrefix(a[1..], t, sep);
      assert [a[0]] + (a[1..] + Split(t, sep)[0]) == a + Split(t, sep)[0];
    }
  }

  /** Text with no separator splits into itself alone, and only such text does. */
  lemma SplitSingle(s: string, sep: char)
    ensures Split(s, sep) == [s] <==> Free(s, sep)
  {
    if Free(s, sep) {
      SplitAfterFreePrefix(s, [], sep);
      assert s + [] == s;
    }
  }

  /** Round trip: splitting a join of separator-free parts gives the parts back. */
  lemma {:induction false} SplitJoin(parts: seq<string>, sep: char)
    requires |parts| >= 1
    requires forall i :: 0 <= i < |parts| ==> Free(parts[i], sep)
    ensures Split(Join(parts, sep), sep) == parts
  {
    if |parts| == 1 {
      SplitSingle(parts[0], sep);
    } else {
      var rest := Join(parts[1..], sep);
      SplitJoin(parts[1..], sep);
      assert ([sep] + rest)[1..] == rest;
      assert Split([sep] + rest, sep) == [""] + parts[1..];
      assert parts[0] + [sep] + rest == parts[0] + ([sep] + rest);
      SplitAfterFreePrefix(parts[0], [sep] + rest, sep);
      assert parts[0] + "" == parts[0];
      assert ([""] + parts[1..])[1..] == parts[1..];
    }
  }

  /**
   * The decomposition of a stream into complete lines and a trailing fragment is
   * unique: if the lines and the fragment are separator-free and put back together
   * give s, they are exactly what Split(s) yields.
   */
  lemma Decomposition(lines: seq<string>, rest: string, s: string, sep: char)
    requires forall i :: 0 <= i < |lines| ==> Free(lines[i], sep)
    requires Free(rest, sep)
    requires Terminated(lines, sep) + rest == s
    ensures Split(s, sep) == lines + [rest]
  {
    var parts := lines + [rest];
    JoinIsTerminatedPlusLast(parts, sep);
    assert parts[..|parts| - 1] == lines;
    SplitJoin(parts, sep);
  }

  /** Split yields one more part than s has separators: one per separator plus the fragment after the last. */
  lemma {:induction false} SplitCount(s: string, sep: char)
    ensures |Split(s, sep)| == Occurrences(s, sep) + 1
    decreases |s|
  {
    if s != [] {
      SplitCount(s[1..], sep);
    }
  }

  function Occurrences(s: string, c: char): nat {
    if s == [] then 0 else (if s[0] == c then 1 else 0) + Occurrences(s[1..], c)
  }

  /** QString::lastIndexOf(c): the position of the last c in s, or -1 when there is none. */
  function LastIndexOf(s: string, c: char): (i: int)
    ensures -1 <= i < |s|
    ensures i >= 0 ==> s[i] == c
    ensures forall j :: i < j < |s| ==> s[j] != c
  {
    if s == [] then -1
    else if s[|s| - 1] == c then |s| - 1
    else LastIndexOf(s[..|s| - 1], c)
  }

  /** LastIndexOf is the only position that is a c with no c after it. */
  lemma LastIndexOfIs(s: string, c: char, k: int)
    requires -1 <= k < |s|
    requires k >= 0 ==> s[k] == c
    requires forall j :: k < j < |s| ==> s[j] != c
    ensures LastIndexOf(s, c) == k
  {
  }

  /** The text after the last c (all of s when there is no c). */
  function AfterLast(s: string, c: char): string {
    s[LastIndexOf(s, c) + 1..]
  }

  /** The last part Split returns is exactly the text after the last separator. */
  lemma SplitLastIsAfterLast(s: string, sep: char)
    ensures Split(s, sep)[|Split(s, sep)| - 1] == AfterLast(s, sep)
  {
    var parts := Split(s, sep);
    var lines, rest := parts[..|parts| - 1], parts[|parts| - 1];
    JoinIsTerminatedPlusLast(parts, sep);
    var k := |s| - |rest|;
    assert s[k..] == rest;
    if lines == [] {
      assert forall j :: 0 <= j < |s| ==> s[j] != sep by {
        forall j | 0 <= j < |s| ensures s[j] != sep {
          assert s[j] == rest[j];
        }
      }
    } else {
      TerminatedEndsWithSep(lines, sep);
      assert s[k - 1] == sep;
      assert forall j :: k <= j < |s| ==> s[j] != sep by {
        forall j | k <= j < |s| ensures s[j] != sep {
          assert s[j] == rest[j - k];
        }
      }
    }
  }

  lemma {:induction false} TerminatedEndsWithSep(lines: seq<string>, sep: char)
    requires lines != []
    ensures |Terminated(lines, sep)| >= 1
    ensures Terminated(lines, sep)[|Terminated(lines, sep)| - 1] == sep
  {
    if lines[1..] != [] {
      TerminatedEndsWithSep(lines[1..], sep);
    }
  }

  function DigitChar(d: nat): char
    requires d < 10
  {
    ('0' as int + d) as char
  }

  /** QString::arg(int) for a non-negative count: decimal digits without leading zeros. */
  function Decimal(n: nat): (s: string)
    ensures |s| >= 1
    ensures forall i :: 0 <= i < |s| ==> '0' <= s[i] <= '9'
    ensures n > 0 ==> s[0] != '0'
  {
    if n < 10 then [DigitChar(n)] else Decimal(n / 10) + [DigitChar(n % 10)]
  }

  /** Reads a string of decimal digits back as a number: the partner of Decimal. */
  function DecimalValue(s: string): nat
    requires forall i :: 0 <= i < |s| ==> '0' <= s[i] <= '9'
  {
    if s == [] then 0 else 10 * DecimalValue(s[..|s| - 1]) + (s[|s| - 1] as int - '0' as int)
  }

  lemma {:induction false} DecimalRoundTrip(n: nat)
    ensures DecimalValue(Decimal(n)) == n
  {
    if n >= 10 {
      var s := Decimal(n);
      assert s[..|s| - 1] == Decimal(n / 10);
      DecimalRoundTrip(n / 10);
    }
  }

  /** Different counts are rendered differently. */
  lemma DecimalInjective(a: nat, b: nat)
    requires a != b
    ensures Decimal(a) != Decimal(b)
  {
    DecimalRoundTrip(a);
    DecimalRoundTrip(b);
  }
}
