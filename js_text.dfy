/** The JavaScript string operations the core relies on:
    `String.prototype.split` with a one-character separator and `pop()`,
    `toLowerCase` (on ASCII letters), and number-to-decimal conversion. */
module JsText {

  /** `s.split(sep)`: the maximal runs of non-separator characters, including
      the empty ones before, between and after separators (so "" gives [""]).
      What the parts are is stated by `SplitFacts`. */
  function Split(s: string, sep: char): (parts: seq<string>)
    ensures |parts| >= 1
    decreases |s|
  {
    if s == [] then [""]
    else
      var rest := Split(s[1..], sep);
      if s[0] == sep then [""] + rest
      else [[s[0]] + rest[0]] + rest[1..]
  }

  /** `parts.join(sep)`: the parts with one separator between neighbours. */
  function Join(parts: seq<string>, sep: char): string
    requires |parts| >= 1
    decreases |parts|
  {
    if |parts| == 1 then parts[0] else parts[0] + [sep] + Join(parts[1..], sep)
  }

  /** What `split` produces: no part holds the separator, the parts joined back with the
      separator give the input, a separator-free input is its own single part, an input
      with a separator has two parts or more, and the last part (what `pop()` returns) is
      the text after the last separator. */
  predicate SplitShape(s: string, sep: char, parts: seq<string>)
    requires |parts| >= 1
  {
    && (forall i :: 0 <= i < |parts| ==> sep !in parts[i])
    && Join(parts, sep) == s
    && (sep !in s ==> parts == [s])
    && (sep in s ==> |parts| >= 2)
    && IsLastPart(s, sep, parts[|parts| - 1])
  }

  lemma {:induction false} SplitFacts(s: string, sep: char)
    ensures SplitShape(s, sep, Split(s, sep))
    decreases |s|
  {
    if s == [] {
      assert Split(s, sep) == [""];
    } else {
      SplitFacts(s[1..], sep);
      if s[0] == sep {
        SplitStepSeparator(s, sep);
      } else {
        SplitStepOther(s, sep);
      }
    }
  }

  lemma SplitStepSeparator(s: string, sep: char)
    requires s != [] && s[0] == sep
    requires SplitShape(s[1..], sep, Split(s[1..], sep))
    ensures SplitShape(s, sep, Split(s, sep))
  {
    var rest := Split(s[1..], sep);
    SplitAtSeparator(s, sep);
    var parts := [""] + rest;
    assert parts[1..] == rest;
    assert Join(parts, sep) == [sep] + s[1..];
    assert s == [sep] + s[1..];
    LastPartAfterSeparator(s, sep, rest[|rest| - 1]);
  }

  lemma SplitStepOther(s: string, sep: char)
    requires s != [] && s[0] != sep
    requires SplitShape(s[1..], sep, Split(s[1..], sep))
    ensures SplitShape(s, sep, Split(s, sep))
  {
    var rest := Split(s[1..], sep);
    SplitAtOther(s, sep);
    PrependShape(s, sep, rest);
  }

  /** The shape of `split` is kept when a non-separator character joins the first part. */
  lemma PrependShape(s: string, sep: char, rest: seq<string>)
    requires s != [] && s[0] != sep && |rest| >= 1
    requires SplitShape(s[1..], sep, rest)
    ensures SplitShape(s, sep, [[s[0]] + rest[0]] + rest[1..])
  {
    var parts := [[s[0]] + rest[0]] + rest[1..];
    assert sep in s[1..] <==> sep in s;
    assert forall i :: 1 <= i < |parts| ==> parts[i] == rest[i];
    JoinPrepend(s[0], rest, sep);
    assert s == [s[0]] + s[1..];
    LastPartAfterOther(s, sep, rest);
  }

  /** Prepending a character to the first part prepends it to the joined string. */
  lemma JoinPrepend(c: char, parts: seq<string>, sep: char)
    requires |parts| >= 1
    ensures Join([[c] + parts[0]] + parts[1..], sep) == [c] + Join(parts, sep)
  {
    var q := [[c] + parts[0]] + parts[1..];
    if |parts| > 1 {
      assert q[1..] == parts[1..];
      assert ([c] + parts[0]) + [sep] + Join(parts[1..], sep)
          == [c] + (parts[0] + [sep] + Join(parts[1..], sep));
    }
  }

  /** `last` is the text after the last `sep` of `s` (all of `s` when it has no `sep`):
      a suffix of `s` without `sep` that is either all of `s` or preceded by `sep`. */
  predicate IsLastPart(s: string, sep: char, last: string) {
    && |last| <= |s|
    && last == s[|s| - |last|..]
    && sep !in last
    && (|last| < |s| ==> s[|s| - |last| - 1] == sep)
  }

  lemma LastPartAfterSeparator(s: string, sep: char, last: string)
    requires s != [] && s[0] == sep
    requires IsLastPart(s[1..], sep, last)
    ensures IsLastPart(s, sep, last)
  {
    if |last| < |s| - 1 {
      LastPartOfTail(s, sep, last);
    } else {
      assert last == s[1..];
      assert s[|s| - |last|..] == s[1..];
    }
  }

  lemma LastPartAfterOther(s: string, sep: char, rest: seq<string>)
    requires s != [] && s[0] != sep && |rest| >= 1
    requires forall i :: 0 <= i < |rest| ==> sep !in rest[i]
    requires sep !in s[1..] ==> rest == [s[1..]]
    requires sep in s[1..] ==> |rest| >= 2
    requires IsLastPart(s[1..], sep, rest[|rest| - 1])
    ensures var parts := [[s[0]] + rest[0]] + rest[1..];
      IsLastPart(s, sep, parts[|parts| - 1])
  {
    var parts := [[s[0]] + rest[0]] + rest[1..];
    if |rest| == 1 {
      assert s == [s[0]] + s[1..];
      assert parts[|parts| - 1] == s;
    } else {
      var last := rest[|rest| - 1];
      assert parts[|parts| - 1] == last;
      LastPartOfTail(s, sep, last);
    }
  }

  /** A last part of `s[1..]` that is shorter than `s[1..]` is also the last part of `s`. */
  lemma LastPartOfTail(s: string, sep: char, last: string)
    requires s != []
    requires IsLastPart(s[1..], sep, last)
    requires |last| < |s| - 1
    ensures IsLastPart(s, sep, last)
  {
    assert s[|s| - |last|..] == s[1..][|s| - 1 - |last|..];
    assert s[|s| - |last| - 1] == s[1..][|s| - 1 - |last| - 1];
  }

  /** Only one string is the text after the last separator. */
  lemma {:induction false} LastPartUnique(s: string, sep: char, a: string, b: string)
    requires IsLastPart(s, sep, a) && IsLastPart(s, sep, b)
    ensures a == b
  {
  }

  /** `.pop()` on a split: the last part. */
  function Pop(parts: seq<string>): string
    requires |parts| >= 1
  {
    parts[|parts| - 1]
  }

  /** Splitting around the first separator: a separator-free head becomes the first part. */
  lemma {:induction false} SplitAround(a: string, b: string, sep: char)
    requires sep !in a
    ensures Split(a + [sep] + b, sep) == [a] + Split(b, sep)
    decreases |a|, 1
  {
    if a == [] {
      assert a + [sep] + b == [sep] + b;
      SplitAtSeparator([sep] + b, sep);
      assert ([sep] + b)[1..] == b;
    } else {
      SplitAroundCons(a, b, sep);
    }
  }

  lemma {:induction false} SplitAroundCons(a: string, b: string, sep: char)
    requires sep !in a && a != []
    ensures Split(a + [sep] + b, sep) == [a] + Split(b, sep)
    decreases |a|, 0
  {
    var t := a[1..] + [sep] + b;
    assert a + [sep] + b == [a[0]] + t;
    SplitAround(a[1..], b, sep);
    SplitCons(a[0], t, sep, a[1..], Split(b, sep));
    assert [a[0]] + a[1..] == a;
  }

  lemma SplitCons(c: char, t: string, sep: char, head: string, tail: seq<string>)
    requires c != sep && Split(t, sep) == [head] + tail
    ensures Split([c] + t, sep) == [[c] + head] + tail
  {
    var s := [c] + t;
    assert s[0] == c && s[1..] == t;
    SplitAtOther(s, sep);
    assert ([head] + tail)[0] == head && ([head] + tail)[1..] == tail;
  }

  lemma SplitAtSeparator(s: string, sep: char)
    requires s != [] && s[0] == sep
    ensures Split(s, sep) == [""] + Split(s[1..], sep)
  {
  }

  lemma SplitAtOther(s: string, sep: char)
    requires s != [] && s[0] != sep
    ensures var rest := Split(s[1..], sep);
      Split(s, sep) == [[s[0]] + rest[0]] + rest[1..]
  {
  }

  /** ASCII case mapping of `toLowerCase`: 'A'..'Z' to 'a'..'z', everything else kept. */
  function LowerChar(c: char): char {
    if 'A' <= c <= 'Z' then (c as int + 32) as char else c
  }

  /** `s.toLowerCase()`, character by character. */
  function ToLower(s: string): (r: string)
    ensures |r| == |s|
    ensures forall i :: 0 <= i < |s| ==> r[i] == LowerChar(s[i])
    ensures forall i :: 0 <= i < |r| ==> !('A' <= r[i] <= 'Z')
  {
    if s == [] then [] else [LowerChar(s[0])] + ToLower(s[1..])
  }

  /** Lower-casing twice is lower-casing once. */
  lemma ToLowerIdempotent(s: string)
    ensures ToLower(ToLower(s)) == ToLower(s)
  {
  }

  /** Lower-casing neither creates nor removes a punctuation character such as '.' or '/'. */
  lemma ToLowerKeeps(s: string, c: char)
    requires !('A' <= c <= 'Z') && !('a' <= c <= 'z')
    ensures c in ToLower(s) <==> c in s
  {
    var r := ToLower(s);
    if c in s {
      var i :| 0 <= i < |s| && s[i] == c;
      assert r[i] == c;
    }
    if c in r {
      var i :| 0 <= i < |r| && r[i] == c;
      assert s[i] == c;
    }
  }

  /** The decimal digit for `d`. */
  function DigitChar(d: nat): char
    requires d < 10
  {
    "0123456789"[d]
  }

  predicate IsDigit(c: char) {
    '0' <= c <= '9'
  }

  /** `String(n)` for a non-negative integer: its decimal numeral, without leading zeros. */
  function NatToString(n: nat): (r: string)
    ensures r != []
    ensures forall i :: 0 <= i < |r| ==> IsDigit(r[i])
    ensures |r| > 1 ==> r[0] != '0'
  {
    if n < 10 then [DigitChar(n)] else NatToString(n / 10) + [DigitChar(n % 10)]
  }

  /** The value of a string of decimal digits (the reference reading of a numeral). */
  function DecimalValue(s: string): nat
    requires forall i :: 0 <= i < |s| ==> IsDigit(s[i])
  {
    if s == [] then 0
    else
      var last := s[|s| - 1];
      assert IsDigit(last);
      DecimalValue(s[..|s| - 1]) * 10 + (last as int - '0' as int)
  }

  /** Reading back the numeral `String(n)` gives `n`. */
  lemma {:induction false} NatToStringRoundTrip(n: nat)
    ensures DecimalValue(NatToString(n)) == n
  {
    var r := NatToString(n);
    if n < 10 {
      assert r[..0] == [];
    } else {
      assert r[..|r| - 1] == NatToString(n / 10);
      NatToStringRoundTrip(n / 10);
    }
  }
}
