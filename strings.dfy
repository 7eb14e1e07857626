/** Python's `str.split(sep)` with a one-character separator, and the facts about it
    that the path-glob proofs need. */
module Strings {

  /** `s.split(sep)`: the pieces of `s` between occurrences of `sep`, in order.
      There is always at least one piece: `"".split('/') == [""]`. */
  function Split(s: string, sep: char): (r: seq<string>)
    ensures |r| >= 1
    decreases |s|
  {
    if s == [] then [[]]
    else
      var rest := Split(s[1..], sep);
      if s[0] == sep then [[]] + rest
      else [[s[0]] + rest[0]] + rest[1..]
  }

  /** `sep.join(parts)`, the inverse of `Split`. */
  function JoinWith(parts: seq<string>, sep: char): string
    decreases |parts|
  {
    if parts == [] then []
    else if |parts| == 1 then parts[0]
    else parts[0] + [sep] + JoinWith(parts[1..], sep)
  }

  /** No piece of a split contains the separator. */
  lemma {:induction false} SplitPiecesHaveNoSep(s: string, sep: char)
    ensures forall i :: 0 <= i < |Split(s, sep)| ==> sep !in Split(s, sep)[i]
    decreases |s|
  {
    if s != [] {
      SplitPiecesHaveNoSep(s[1..], sep);
    }
  }

  /** A string holds the separator exactly when it splits into more than one piece. */
  lemma {:induction false} SplitSingleIff(s: string, sep: char)
    ensures |Split(s, sep)| == 1 <==> sep !in s
    ensures sep !in s ==> Split(s, sep) == [s]
    decreases |s|
  {
    if s != [] {
      SplitSingleIff(s[1..], sep);
      assert s == [s[0]] + s[1..];
    }
  }

  /** Splitting after the first separator: `u + [sep] + v` with no `sep` in `u`. */
  lemma {:induction false} SplitAtFirst(s: string, sep: char, k: nat)
    requires k < |s| && s[k] == sep && sep !in s[..k]
    ensures Split(s, sep) == [s[..k]] + Split(s[k + 1..], sep)
    decreases k
  {
    if k > 0 {
      assert s[1..][k - 1] == sep;
      assert s[1..][..k - 1] == s[1..k];
      assert s[1..][k..] == s[k + 1..];
      SplitAtFirst(s[1..], sep, k - 1);
      assert [s[0]] + s[1..k] == s[..k];
    }
  }

  /** The index of the first separator of a string that holds one. */
  lemma {:induction false} FirstSep(s: string, sep: char) returns (k: nat)
    requires sep in s
    ensures k < |s| && s[k] == sep && sep !in s[..k]
    decreases |s|
  {
    if s[0] == sep {
      k := 0;
    } else {
      assert s == [s[0]] + s[1..];
      var k' := FirstSep(s[1..], sep);
      k := k' + 1;
      assert s[..k] == [s[0]] + s[1..][..k'];
    }
  }

  /** The text after any separator splits into a proper suffix of the pieces (at least the
      first piece is dropped). */
  lemma {:induction false} SplitAfterSep(s: string, sep: char, k: nat) returns (m: nat)
    requires k < |s| && s[k] == sep
    ensures 1 <= m < |Split(s, sep)|
    ensures Split(s, sep)[m..] == Split(s[k + 1..], sep)
    decreases k
  {
    var rest := Split(s[1..], sep);
    if k == 0 {
      m := 1;
    } else {
      assert s[1..][k - 1] == sep && s[1..][k..] == s[k + 1..];
      var m' := SplitAfterSep(s[1..], sep, k - 1);
      if s[0] == sep {
        m := m' + 1;
      } else {
        m := m';
      }
    }
  }

  /** Conversely, every proper suffix of the pieces starting after the first is what the
      text after some separator splits into. */
  lemma {:induction false} SepBeforeSuffix(s: string, sep: char, m: nat) returns (k: nat)
    requires 1 <= m < |Split(s, sep)|
    ensures k < |s| && s[k] == sep
    ensures Split(s[k + 1..], sep) == Split(s, sep)[m..]
    decreases |s|
  {
    var rest := Split(s[1..], sep);
    if s[0] == sep {
      assert Split(s, sep) == [[]] + rest;
      if m == 1 {
        k := 0;
      } else {
        var k' := SepBeforeSuffix(s[1..], sep, m - 1);
        k := k' + 1;
        assert s[1..][k' + 1..] == s[k + 1..];
        assert Split(s, sep)[m..] == rest[m - 1..];
      }
    } else {
      assert Split(s, sep) == [[s[0]] + rest[0]] + rest[1..];
      var k' := SepBeforeSuffix(s[1..], sep, m);
      k := k' + 1;
      assert s[1..][k' + 1..] == s[k + 1..];
      assert Split(s, sep)[m..] == rest[m..];
    }
  }

  /** Joining the pieces of a split gives the string back. */
  lemma {:induction false} JoinSplit(s: string, sep: char)
    ensures JoinWith(Split(s, sep), sep) == s
    decreases |s|
  {
    if s != [] {
      var rest := Split(s[1..], sep);
      JoinSplit(s[1..], sep);
      if s[0] == sep {
        assert JoinWith([[]] + rest, sep) == [] + [sep] + JoinWith(rest, sep);
      } else if |rest| == 1 {
        assert [[s[0]] + rest[0]] + rest[1..] == [[s[0]] + rest[0]];
      } else {
        var r := [[s[0]] + rest[0]] + rest[1..];
        assert r[1..] == rest[1..];
        assert JoinWith(rest, sep) == rest[0] + [sep] + JoinWith(rest[1..], sep);
      }
    }
  }

  /** Splitting a join gives the pieces back, when no piece holds the separator. */
  lemma {:induction false} SplitJoin(parts: seq<string>, sep: char)
    requires parts != []
    requires forall i :: 0 <= i < |parts| ==> sep !in parts[i]
    ensures Split(JoinWith(parts, sep), sep) == parts
    decreases |parts|
  {
    if |parts| == 1 {
      SplitSingleIff(parts[0], sep);
    } else {
      var tail := JoinWith(parts[1..], sep);
      var s := parts[0] + [sep] + tail;
      var k := |parts[0]|;
      assert s[..k] == parts[0] && s[k] == sep && s[k + 1..] == tail;
      SplitAtFirst(s, sep, k);
      SplitJoin(parts[1..], sep);
      assert [parts[0]] + parts[1..] == parts;
    }
  }
}
