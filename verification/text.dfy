/** The string operations the program relies on: `str::find` for a single
    character and `str::split` on a single-character separator, together with
    the `Join` that undoes a split. */
module Text {
  import opened Prelude

  /** Position of the first occurrence of `c` in `s` (Rust's `s.find(c)`). */
  function IndexOf(s: string, c: char): (r: Option<nat>)
    ensures r.None? <==> c !in s
    ensures r.Some? ==> r.value < |s| && s[r.value] == c && c !in s[..r.value]
  {
    if |s| == 0 then None
    else if s[0] == c then Some(0)
    else match IndexOf(s[1..], c)
      case None => None
      case Some(i) =>
        assert s[..i + 1] == [s[0]] + s[1..][..i];
        Some(i + 1)
  }

  /** The pieces of `s` between occurrences of `sep`, in order
      (Rust's `s.split(sep).collect::<Vec<&str>>()`). There is always at least
      one piece, and no piece contains the separator. */
  function Split(s: string, sep: char): (parts: seq<string>)
    ensures |parts| >= 1
    ensures forall i :: 0 <= i < |parts| ==> sep !in parts[i]
    decreases |s|
  {
    match IndexOf(s, sep)
    case None => [s]
    case Some(i) => [s[..i]] + Split(s[i + 1..], sep)
  }

  /** The pieces put back together with `sep` between neighbours. */
  function Join(parts: seq<string>, sep: char): string
    requires |parts| >= 1
  {
    if |parts| == 1 then parts[0] else parts[0] + [sep] + Join(parts[1..], sep)
  }

  /** Splitting loses nothing: joining the pieces gives back the input. */
  lemma {:induction false} JoinSplit(s: string, sep: char)
    ensures Join(Split(s, sep), sep) == s
    decreases |s|
  {
    match IndexOf(s, sep)
    case None =>
    case Some(i) =>
      var tail := Split(s[i + 1..], sep);
      var parts := [s[..i]] + tail;
      assert Split(s, sep) == parts;
      assert parts[1..] == tail;
      assert Join(parts, sep) == s[..i] + [sep] + Join(tail, sep);
      JoinSplit(s[i + 1..], sep);
      assert s == s[..i] + [sep] + s[i + 1..];
  }

  /** Joining pieces free of the separator and splitting again gives back the pieces. */
  lemma {:induction false} SplitJoin(parts: seq<string>, sep: char)
    requires |parts| >= 1
    requires forall i :: 0 <= i < |parts| ==> sep !in parts[i]
    ensures Split(Join(parts, sep), sep) == parts
    decreases |parts|
  {
    if |parts| > 1 {
      var s := Join(parts, sep);
      var rest := Join(parts[1..], sep);
      assert s == parts[0] + [sep] + rest;
      assert s[|parts[0]|] == sep;
      assert s[..|parts[0]|] == parts[0];
      assert IndexOf(s, sep) == Some(|parts[0]|);
      assert s[|parts[0]| + 1..] == rest;
      SplitJoin(parts[1..], sep);
      assert parts == [parts[0]] + parts[1..];
    }
  }

  /** The first piece of a split is everything before the first separator:
      text with a separator after it keeps only what precedes it. */
  lemma FirstPiece(line: string, sep: char, rest: string)
    requires sep !in line
    ensures Split(line, sep)[0] == line
    ensures Split(line + [sep] + rest, sep)[0] == line
  {
    var s := line + [sep] + rest;
    assert s[|line|] == sep;
    assert s[..|line|] == line;
    assert IndexOf(s, sep) == Some(|line|);
  }

  /** Cutting a string around two positions and gluing the parts back together. */
  lemma Around(s: string, i: nat, j: nat)
    requires i < j < |s|
    ensures s == s[..i] + [s[i]] + s[i + 1..j] + [s[j]] + s[j + 1..]
  {
  }

  /** The first `c` in `pre + [c] + rest` is the one right after `pre` when `pre` holds none. */
  lemma IndexAfter(pre: string, c: char, rest: string)
    requires c !in pre
    ensures IndexOf(pre + [c] + rest, c) == Some(|pre|)
  {
    var s := pre + [c] + rest;
    assert s[|pre|] == c;
    assert forall j :: 0 <= j < |pre| ==> s[j] == pre[j];
    assert forall m :: |pre| < m <= |s| ==> s[..m][|pre|] == c;
  }

  /** The middle part of `pre + [x] + mid + [y] + post`, cut out by position. */
  lemma Middle(pre: string, x: char, mid: string, y: char, post: string)
    ensures (pre + [x] + mid + [y] + post)[|pre| + 1..|pre| + 1 + |mid|] == mid
  {
    var s := pre + [x] + mid + [y] + post;
    assert forall k :: 0 <= k < |mid| ==> s[|pre| + 1 + k] == mid[k];
  }
}
