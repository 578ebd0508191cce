/**
  The parts of JavaScript's String.prototype that the formatting helpers use:
  `split` with a non-empty separator, `Array.prototype.join`, and `replaceAll`
  with a one-character pattern (the only kind the helpers pass).
 */
module Strings {

  /** `s` begins with `prefix`. */
  predicate StartsWith(s: string, prefix: string) {
    |prefix| <= |s| && s[..|prefix|] == prefix
  }

  /**
    `s.split(sep)`: the text between successive non-overlapping occurrences of
    `sep`, found from the left. There is always at least one field.
   */
  function Split(s: string, sep: string): (parts: seq<string>)
    requires |sep| > 0
    ensures |parts| >= 1
    ensures |parts[0]| <= |s|
    decreases |s|
  {
    if |s| == 0 then [""]
    else if StartsWith(s, sep) then [""] + Split(s[|sep|..], sep)
    else
      var rest := Split(s[1..], sep);
      [[s[0]] + rest[0]] + rest[1..]
  }

  /** `parts.join(sep)`. */
  function Join(parts: seq<string>, sep: string): string
    decreases |parts|
  {
    if |parts| == 0 then ""
    else if |parts| == 1 then parts[0]
    else parts[0] + sep + Join(parts[1..], sep)
  }

  /** Joining a non-empty tail after a head puts one separator between them. */
  lemma JoinCons(head: string, rest: seq<string>, sep: string)
    requires |rest| >= 1
    ensures Join([head] + rest, sep) == head + sep + Join(rest, sep)
  {
    assert ([head] + rest)[1..] == rest;
  }

  /** Prepending a character to the first field prepends it to the joined text. */
  lemma JoinExtendHead(c: char, parts: seq<string>, sep: string)
    requires |parts| >= 1
    ensures Join([[c] + parts[0]] + parts[1..], sep) == [c] + Join(parts, sep)
  {
    if |parts| == 1 {
      assert [[c] + parts[0]] + parts[1..] == [[c] + parts[0]];
    } else {
      JoinCons([c] + parts[0], parts[1..], sep);
      JoinCons(parts[0], parts[1..], sep);
      assert [parts[0]] + parts[1..] == parts;
    }
  }

  /** Splitting and joining again with the same separator gives back the string. */
  lemma {:induction false} JoinSplit(s: string, sep: string)
    requires |sep| > 0
    ensures Join(Split(s, sep), sep) == s
    decreases |s|
  {
    if |s| == 0 {
    } else if StartsWith(s, sep) {
      var rest := Split(s[|sep|..], sep);
      assert Split(s, sep) == [""] + rest;
      JoinSplit(s[|sep|..], sep);
      JoinCons("", rest, sep);
      assert s == sep + s[|sep|..];
    } else {
      var rest := Split(s[1..], sep);
      assert Split(s, sep) == [[s[0]] + rest[0]] + rest[1..];
      JoinSplit(s[1..], sep);
      JoinExtendHead(s[0], rest, sep);
      assert s == [s[0]] + s[1..];
    }
  }

  /** A string in which the separator's first character never occurs is a single field. */
  lemma {:induction false} SplitWithoutSeparator(s: string, sep: string)
    requires |sep| > 0 && sep[0] !in s
    ensures Split(s, sep) == [s]
    decreases |s|
  {
    if |s| > 0 {
      assert s[0] != sep[0];
      assert s[1..] == s[..][1..];
      assert forall c :: c in s[1..] ==> c in s;
      SplitWithoutSeparator(s[1..], sep);
      assert [s[0]] + s[1..] == s;
    }
  }

  /**
    A leading field that holds no character starting the separator is cut off
    at the separator that follows it.
   */
  lemma {:induction false} SplitLeadingField(field: string, sep: string, rest: string)
    requires |sep| > 0 && sep[0] !in field
    ensures Split(field + sep + rest, sep) == [field] + Split(rest, sep)
    decreases |field|
  {
    var s := field + sep + rest;
    if |field| == 0 {
      assert s == sep + rest;
      assert StartsWith(s, sep);
      assert s[|sep|..] == rest;
    } else {
      assert s[0] == field[0] != sep[0];
      assert !StartsWith(s, sep);
      assert forall c :: c in field[1..] ==> c in field;
      assert s[1..] == field[1..] + sep + rest;
      SplitLeadingField(field[1..], sep, rest);
      assert [s[0]] + field[1..] == field;
    }
  }

  /** Where the separator does not start, the first character joins the first field. */
  lemma SplitExtendField(s: string, sep: string, field: string, tail: seq<string>)
    requires |sep| > 0 && |s| > 0 && !StartsWith(s, sep)
    requires Split(s[1..], sep) == [field] + tail
    ensures Split(s, sep) == [[s[0]] + field] + tail
  {
    assert ([field] + tail)[1..] == tail;
  }

  /**
    The first field ends at the leftmost occurrence of the separator: when `j`
    is the least position at which `sep` starts, the split is `s[..j]`
    followed by the split of what comes after that occurrence.
   */
  lemma {:induction false} SplitAtFirst(s: string, sep: string, j: nat)
    requires |sep| > 0 && j + |sep| <= |s|
    requires StartsWith(s[j..], sep)
    requires forall k {:trigger StartsWith(s[k..], sep)} :: 0 <= k < j ==> !StartsWith(s[k..], sep)
    ensures Split(s, sep) == [s[..j]] + Split(s[j + |sep|..], sep)
    decreases j
  {
    assert s[0..] == s;
    if j == 0 {
      assert StartsWith(s, sep);
    } else {
      assert !StartsWith(s[0..], sep);
      var t := s[1..];
      assert t[j - 1..] == s[j..];
      forall k {:trigger StartsWith(t[k..], sep)} | 0 <= k < j - 1
        ensures !StartsWith(t[k..], sep)
      {
        assert t[k..] == s[k + 1..];
        assert !StartsWith(s[k + 1..], sep);
      }
      SplitAtFirst(t, sep, j - 1);
      SplitExtendField(s, sep, t[..j - 1], Split(t[j - 1 + |sep|..], sep));
      assert t[j - 1 + |sep|..] == s[j + |sep|..];
      assert [s[0]] + t[..j - 1] == s[..j];
    }
  }

  /** A string in which the separator starts nowhere is a single field. */
  lemma {:induction false} SplitNoOccurrence(s: string, sep: string)
    requires |sep| > 0
    requires forall k {:trigger StartsWith(s[k..], sep)} :: 0 <= k < |s| ==> !StartsWith(s[k..], sep)
    ensures Split(s, sep) == [s]
    decreases |s|
  {
    if |s| > 0 {
      assert s[0..] == s;
      assert !StartsWith(s[0..], sep);
      var t := s[1..];
      forall k {:trigger StartsWith(t[k..], sep)} | 0 <= k < |t|
        ensures !StartsWith(t[k..], sep)
      {
        assert t[k..] == s[k + 1..];
        assert !StartsWith(s[k + 1..], sep);
      }
      SplitNoOccurrence(t, sep);
      assert [s[0]] + t == s;
    }
  }

  /** Number of occurrences of `c` in `s`. */
  function Count(s: string, c: char): (n: nat)
    ensures n <= |s|
    ensures n == 0 <==> c !in s
  {
    if |s| == 0 then 0 else (if s[0] == c then 1 else 0) + Count(s[1..], c)
  }

  /** `s.replaceAll(c, '')`: every `c` dropped, everything else kept in order. */
  function RemoveAll(s: string, c: char): (r: string)
    ensures |r| == |s| - Count(s, c)
    ensures c !in r
  {
    if |s| == 0 then ""
    else if s[0] == c then RemoveAll(s[1..], c)
    else [s[0]] + RemoveAll(s[1..], c)
  }

  /** `s.replaceAll(c, d)`: every `c` becomes `d`, nothing else changes. */
  function ReplaceAll(s: string, c: char, d: char): (r: string)
    ensures |r| == |s|
    ensures forall k :: 0 <= k < |s| ==> r[k] == if s[k] == c then d else s[k]
  {
    if |s| == 0 then ""
    else [if s[0] == c then d else s[0]] + ReplaceAll(s[1..], c, d)
  }

  /** After replacing `c` by `d`, the `d`s are the old `c`s and `d`s together, and no `c` is left. */
  lemma {:induction false} ReplaceAllCounts(s: string, c: char, d: char)
    requires c != d
    ensures c !in ReplaceAll(s, c, d)
    ensures Count(ReplaceAll(s, c, d), d) == Count(s, d) + Count(s, c)
    decreases |s|
  {
    if |s| > 0 {
      ReplaceAllCounts(s[1..], c, d);
      var r := ReplaceAll(s, c, d);
      assert r == [if s[0] == c then d else s[0]] + ReplaceAll(s[1..], c, d);
      assert r[1..] == ReplaceAll(s[1..], c, d);
    }
  }

  /** Removing `c` leaves the number of every other character unchanged. */
  lemma {:induction false} RemoveAllKeepsCount(s: string, c: char, d: char)
    requires d != c
    ensures Count(RemoveAll(s, c), d) == Count(s, d)
    decreases |s|
  {
    if |s| > 0 {
      RemoveAllKeepsCount(s[1..], c, d);
      if s[0] != c {
        var r := RemoveAll(s, c);
        assert r[1..] == RemoveAll(s[1..], c);
      }
    }
  }

  /** Removing a character that does not occur changes nothing. */
  lemma {:induction false} RemoveAllAbsent(s: string, c: char)
    requires c !in s
    ensures RemoveAll(s, c) == s
    decreases |s|
  {
    if |s| > 0 {
      assert forall x :: x in s[1..] ==> x in s;
      RemoveAllAbsent(s[1..], c);
      assert [s[0]] + s[1..] == s;
    }
  }

  lemma {:induction false} RemoveAllAppend(a: string, b: string, c: char)
    ensures RemoveAll(a + b, c) == RemoveAll(a, c) + RemoveAll(b, c)
    decreases |a|
  {
    if |a| == 0 {
      assert a + b == b;
    } else {
      assert (a + b)[0] == a[0];
      assert (a + b)[1..] == a[1..] + b;
      RemoveAllAppend(a[1..], b, c);
    }
  }

  lemma ReplaceAllAppend(a: string, b: string, c: char, d: char)
    ensures ReplaceAll(a + b, c, d) == ReplaceAll(a, c, d) + ReplaceAll(b, c, d)
  {
    var l, r := ReplaceAll(a + b, c, d), ReplaceAll(a, c, d) + ReplaceAll(b, c, d);
    assert |l| == |r|;
    forall k | 0 <= k < |l| ensures l[k] == r[k] {
      if k < |a| {
        assert (a + b)[k] == a[k];
      } else {
        assert (a + b)[k] == b[k - |a|];
      }
    }
  }
}
