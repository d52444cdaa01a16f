/// Shortening a path for display by keeping components from its start and its end around
/// "..." (PlayerApplication.ShortenPath in UI/Common/PlayerApplication.cs).
module ShortenPath {
  import opened DecimalText

  const Ellipsis: string := "..."

  /** string.Split(sep): the pieces between separators, including empty ones. */
  function Split(s: string, sep: char): (parts: seq<string>)
    ensures |parts| >= 1
  {
    if |s| == 0 then [""]
    else
      var rest := Split(s[1..], sep);
      if s[0] == sep then [""] + rest else [[s[0]] + rest[0]] + rest[1..]
  }

  /** The pieces joined back with the separator between each pair. */
  function Join(parts: seq<string>, sep: char): string
    requires |parts| >= 1
  {
    if |parts| == 1 then parts[0] else parts[0] + [sep] + Join(parts[1..], sep)
  }

  /** Splitting loses nothing: joining the pieces gives the path back. */
  lemma {:induction false} JoinSplit(s: string, sep: char)
    ensures Join(Split(s, sep), sep) == s
  {
    if |s| > 0 {
      var rest := Split(s[1..], sep);
      JoinSplit(s[1..], sep);
      if s[0] == sep {
        assert Split(s, sep)[1..] == rest;
      } else if |rest| == 1 {
        assert Split(s, sep) == [[s[0]] + rest[0]];
      } else {
        assert Split(s, sep)[1..] == rest[1..];
        assert Join(rest, sep) == rest[0] + [sep] + Join(rest[1..], sep);
      }
    }
  }

  /** The first k pieces, each followed by the separator: the shape of firstPart. */
  function Firsts(parts: seq<string>, sep: char, k: nat): string
    requires k <= |parts|
  {
    if k == 0 then "" else Firsts(parts, sep, k - 1) + parts[k - 1] + [sep]
  }

  /** The last k pieces, each preceded by the separator: the shape of lastPart. */
  function Lasts(parts: seq<string>, sep: char, k: nat): string
    requires k <= |parts|
  {
    if k == 0 then "" else [sep] + parts[|parts| - k] + Lasts(parts, sep, k - 1)
  }

  /** The joined path around piece a: the first a pieces, piece a, then the remaining ones. */
  lemma {:induction false} JoinAround(parts: seq<string>, sep: char, a: nat)
    requires a < |parts|
    ensures Join(parts, sep) == Firsts(parts, sep, a) + parts[a] + Lasts(parts, sep, |parts| - 1 - a)
  {
    JoinFrom(parts, sep, a);
    TailIsLasts(parts, sep, a);
  }

  lemma {:induction false} JoinFrom(parts: seq<string>, sep: char, a: nat)
    requires a < |parts|
    ensures Join(parts, sep) == Firsts(parts, sep, a) + Join(parts[a..], sep)
  {
    if a > 0 {
      JoinFrom(parts, sep, a - 1);
      assert parts[a - 1..][1..] == parts[a..];
    }
  }

  lemma {:induction false} TailIsLasts(parts: seq<string>, sep: char, a: nat)
    requires a < |parts|
    ensures Join(parts[a..], sep) == parts[a] + Lasts(parts, sep, |parts| - 1 - a)
    decreases |parts| - a
  {
    if a < |parts| - 1 {
      TailIsLasts(parts, sep, a + 1);
      assert parts[a..][1..] == parts[a + 1..];
    }
  }

  lemma {:induction false} FirstsGrow(parts: seq<string>, sep: char, a: nat, b: nat)
    requires a <= b <= |parts|
    ensures Firsts(parts, sep, a) <= Firsts(parts, sep, b)
    decreases b - a
  {
    if a < b {
      FirstsGrow(parts, sep, a, b - 1);
    }
  }

  predicate IsSuffix(s: string, t: string) { |s| <= |t| && t[|t| - |s|..] == s }

  /** The loop state of ShortenPath: whose turn it is, the two accumulated parts and how many
      pieces each has taken. */
  datatype Shortening = Shortening(firstTurn: bool, firstPart: string, lastPart: string,
                                   firstPartsUsed: nat, lastPartsUsed: nat)

  const Start: Shortening := Shortening(true, "", "", 0, 0)

  /** The loop of ShortenPath from iteration i on: on the start's turn the next piece from the
      front is tried, on the end's turn the next piece from the back; the loop stops at the first
      piece that would push firstPart + lastPart + "..." past maxLength. Taking an empty piece
      does not hand the turn over. */
  function Walk(parts: seq<string>, sep: char, maxLength: int, i: nat, st: Shortening): (r: Shortening)
    requires i <= |parts| && st.firstPartsUsed + st.lastPartsUsed == i
    ensures r.firstPartsUsed + r.lastPartsUsed <= |parts|
    decreases |parts| - i
  {
    if i == |parts| then st
    else if st.firstTurn then
      var partToAdd := parts[st.firstPartsUsed] + [sep];
      if |st.firstPart| + |st.lastPart| + |partToAdd| + |Ellipsis| > maxLength then st
      else
        Walk(parts, sep, maxLength, i + 1,
             st.(firstPart := st.firstPart + partToAdd, firstTurn := partToAdd == [sep],
                 firstPartsUsed := st.firstPartsUsed + 1))
    else
      var partToAdd := [sep] + parts[|parts| - st.lastPartsUsed - 1];
      if |st.firstPart| + |st.lastPart| + |partToAdd| + |Ellipsis| > maxLength then st
      else
        Walk(parts, sep, maxLength, i + 1,
             st.(lastPart := partToAdd + st.lastPart, firstTurn := partToAdd != [sep],
                 lastPartsUsed := st.lastPartsUsed + 1))
  }

  /** The tail of ShortenPath: with no piece taken from the end, the file name is cut by
      Substring(|name| + 3 + |firstPart| - maxLength, maxLength - 3 - |firstPart|), which throws
      (None) when that start is negative. */
  function Finish(parts: seq<string>, maxLength: int, st: Shortening): Option<string>
    requires |parts| >= 1
  {
    if st.lastPart == "" then
      var name := parts[|parts| - 1];
      var start := |name| + |Ellipsis| + |st.firstPart| - maxLength;
      var length := maxLength - |Ellipsis| - |st.firstPart|;
      if start < 0 || length < 0 || start + length > |name| then None
      else Some(st.firstPart + Ellipsis + name[start..start + length])
    else Some(st.firstPart + Ellipsis + st.lastPart)
  }

  /** ShortenPath as written; None is the ArgumentOutOfRangeException Substring throws. */
  function Shortened(path: string, maxLength: int, sep: char): Option<string> {
    if |path| <= maxLength then Some(path)
    else if maxLength <= |Ellipsis| then Some(Ellipsis)
    else
      var parts := Split(path, sep);
      Finish(parts, maxLength, Walk(parts, sep, maxLength, 0, Start))
  }

  /** ShortenPath: alternate between the front and the back of the path, then join the two parts
      with "...". The directory separator is a parameter. */
  method ShortenPath(path: string, maxLength: int, sep: char) returns (r: Option<string>)
    ensures r == Shortened(path, maxLength, sep)
  {
    if |path| <= maxLength {
      return Some(path);
    }
    if maxLength <= |Ellipsis| {
      return Some(Ellipsis);
    }
    var isFirstPartsTurn := true;
    var firstPart := "";
    var lastPart := "";
    var firstPartsUsed := 0;
    var lastPartsUsed := 0;
    var pathParts := Split(path, sep);
    var i := 0;
    while i < |pathParts|
      invariant 0 <= i <= |pathParts| && firstPartsUsed + lastPartsUsed == i
      invariant Walk(pathParts, sep, maxLength, i,
                     Shortening(isFirstPartsTurn, firstPart, lastPart, firstPartsUsed, lastPartsUsed))
                == Walk(pathParts, sep, maxLength, 0, Start)
    {
      if isFirstPartsTurn {
        var partToAdd := pathParts[firstPartsUsed] + [sep];
        if |firstPart| + |lastPart| + |partToAdd| + |Ellipsis| > maxLength {
          break;
        }
        firstPart := firstPart + partToAdd;
        if partToAdd != [sep] {
          isFirstPartsTurn := false;
        }
        firstPartsUsed := firstPartsUsed + 1;
      } else {
        var index := |pathParts| - lastPartsUsed - 1;
        var partToAdd := [sep] + pathParts[index];
        if |firstPart| + |lastPart| + |partToAdd| + |Ellipsis| > maxLength {
          break;
        }
        lastPart := partToAdd + lastPart;
        if partToAdd != [sep] {
          isFirstPartsTurn := true;
        }
        lastPartsUsed := lastPartsUsed + 1;
      }
      i := i + 1;
    }
    if lastPart == "" {
      var name := pathParts[|pathParts| - 1];
      var start := |name| + |Ellipsis| + |firstPart| - maxLength;
      var length := maxLength - |Ellipsis| - |firstPart|;
      if start < 0 || length < 0 || start + length > |name| {
        return None;
      }
      lastPart := name[start..start + length];
    }
    return Some(firstPart + Ellipsis + lastPart);
  }

  /** The number of non-empty pieces among the first k. */
  function NonEmptyFront(parts: seq<string>, k: nat): nat
    requires k <= |parts|
  {
    if k == 0 then 0 else NonEmptyFront(parts, k - 1) + (if parts[k - 1] != "" then 1 else 0)
  }

  /** The number of non-empty pieces among the last k. */
  function NonEmptyBack(parts: seq<string>, k: nat): nat
    requires k <= |parts|
  {
    if k == 0 then 0 else NonEmptyBack(parts, k - 1) + (if parts[|parts| - k] != "" then 1 else 0)
  }

  /** What the loop keeps: firstPart and lastPart are the pieces taken from the front and the
      back, they leave room for "...", and the turn passes only on non-empty pieces, so the
      front has taken as many non-empty pieces as the back, or one more when it is the back's
      turn. */
  ghost predicate Kept(parts: seq<string>, sep: char, maxLength: int, st: Shortening) {
    st.firstPartsUsed + st.lastPartsUsed <= |parts|
    && st.firstPart == Firsts(parts, sep, st.firstPartsUsed)
    && st.lastPart == Lasts(parts, sep, st.lastPartsUsed)
    && |st.firstPart| + |st.lastPart| + |Ellipsis| <= maxLength
    && NonEmptyFront(parts, st.firstPartsUsed)
       == NonEmptyBack(parts, st.lastPartsUsed) + (if st.firstTurn then 0 else 1)
  }

  lemma {:induction false} WalkKeeps(parts: seq<string>, sep: char, maxLength: int, i: nat, st: Shortening)
    requires i <= |parts| && st.firstPartsUsed + st.lastPartsUsed == i
    requires Kept(parts, sep, maxLength, st)
    ensures Kept(parts, sep, maxLength, Walk(parts, sep, maxLength, i, st))
    decreases |parts| - i
  {
    if i < |parts| {
      if st.firstTurn {
        var partToAdd := parts[st.firstPartsUsed] + [sep];
        if |st.firstPart| + |st.lastPart| + |partToAdd| + |Ellipsis| <= maxLength {
          WalkKeeps(parts, sep, maxLength, i + 1,
                    st.(firstPart := st.firstPart + partToAdd, firstTurn := partToAdd == [sep],
                        firstPartsUsed := st.firstPartsUsed + 1));
        }
      } else {
        var partToAdd := [sep] + parts[|parts| - st.lastPartsUsed - 1];
        if |st.firstPart| + |st.lastPart| + |partToAdd| + |Ellipsis| <= maxLength {
          WalkKeeps(parts, sep, maxLength, i + 1,
                    st.(lastPart := partToAdd + st.lastPart, firstTurn := partToAdd != [sep],
                        lastPartsUsed := st.lastPartsUsed + 1));
        }
      }
    }
  }

  /** Taking every piece from one side would give the whole path and one more separator. */
  lemma {:induction false} AllPieces(parts: seq<string>, sep: char)
    requires |parts| >= 1
    ensures |Firsts(parts, sep, |parts|)| == |Join(parts, sep)| + 1
    ensures |Lasts(parts, sep, |parts|)| == |Join(parts, sep)| + 1
  {
    var n := |parts|;
    JoinAround(parts, sep, n - 1);
    JoinAround(parts, sep, 0);
  }

  /** Where the loop stops on a path longer than maxLength (> 3): neither side has taken every
      piece, firstPart is a prefix of the path, and lastPart and the file name are suffixes of it. */
  lemma {:induction false} WalkOnPath(path: string, maxLength: int, sep: char)
    requires maxLength > |Ellipsis| && |path| > maxLength
    ensures var parts := Split(path, sep);
            var st := Walk(parts, sep, maxLength, 0, Start);
            Kept(parts, sep, maxLength, st)
            && st.firstPartsUsed < |parts| && st.lastPartsUsed < |parts|
            && st.firstPart <= path && IsSuffix(st.lastPart, path) && IsSuffix(parts[|parts| - 1], path)
  {
    var parts := Split(path, sep);
    WalkStops(path, maxLength, sep);
    var st := Walk(parts, sep, maxLength, 0, Start);
    PiecesOnPath(path, sep, parts, st.firstPartsUsed, st.lastPartsUsed);
  }

  /** Pieces from the front start the path, pieces from the back and the last piece end it. */
  lemma {:induction false} PiecesOnPath(path: string, sep: char, parts: seq<string>, a: nat, b: nat)
    requires parts == Split(path, sep) && a < |parts| && b < |parts|
    ensures Firsts(parts, sep, a) <= path && IsSuffix(Lasts(parts, sep, b), path)
    ensures IsSuffix(parts[|parts| - 1], path)
  {
    JoinSplit(path, sep);
    FirstsPrefix(parts, sep, a);
    LastsSuffix(parts, sep, b);
    NameSuffix(parts, sep);
  }

  /** The last piece ends the joined path. */
  lemma {:induction false} NameSuffix(parts: seq<string>, sep: char)
    requires |parts| >= 1
    ensures IsSuffix(parts[|parts| - 1], Join(parts, sep))
  {
    JoinAround(parts, sep, |parts| - 1);
    assert Lasts(parts, sep, 0) == "";
  }

  /** Fewer than all pieces from the front, each with its separator, start the joined path. */
  lemma {:induction false} FirstsPrefix(parts: seq<string>, sep: char, a: nat)
    requires a < |parts|
    ensures Firsts(parts, sep, a) <= Join(parts, sep)
  {
    var n := |parts|;
    FirstsGrow(parts, sep, a, n - 1);
    JoinAround(parts, sep, n - 1);
  }

  /** Fewer than all pieces from the back, each with its separator, end the joined path. */
  lemma {:induction false} LastsSuffix(parts: seq<string>, sep: char, b: nat)
    requires b < |parts|
    ensures IsSuffix(Lasts(parts, sep, b), Join(parts, sep))
  {
    var n := |parts|;
    JoinAround(parts, sep, n - 1 - b);
  }

  /** On a path longer than maxLength the loop keeps its invariant and neither side takes every
      piece: together they would be longer than the path. */
  lemma {:induction false} WalkStops(path: string, maxLength: int, sep: char)
    requires maxLength > |Ellipsis| && |path| > maxLength
    ensures var parts := Split(path, sep);
            var st := Walk(parts, sep, maxLength, 0, Start);
            Kept(parts, sep, maxLength, st)
            && st.firstPartsUsed < |parts| && st.lastPartsUsed < |parts|
  {
    var parts := Split(path, sep);
    JoinSplit(path, sep);
    WalkKeeps(parts, sep, maxLength, 0, Start);
    AllPieces(parts, sep);
  }

  /** A path longer than maxLength (> 3) comes out, when Substring does not throw, as a prefix of
      the path, "..." and a suffix of the path, at most maxLength long; when no piece from the
      end fitted, the file name is cut so that the result is exactly maxLength long. The turns
      alternate between the front and the back, empty pieces aside. */
  lemma {:induction false} ShortenedShape(path: string, maxLength: int, sep: char) returns (firstPart: string, lastPart: string)
    requires maxLength > |Ellipsis| && |path| > maxLength
    ensures var parts := Split(path, sep);
            var st := Walk(parts, sep, maxLength, 0, Start);
            firstPart <= path && IsSuffix(lastPart, path)
            && NonEmptyFront(parts, st.firstPartsUsed)
               == NonEmptyBack(parts, st.lastPartsUsed) + (if st.firstTurn then 0 else 1)
            && (Shortened(path, maxLength, sep).Some? ==>
                  Shortened(path, maxLength, sep).value == firstPart + Ellipsis + lastPart
                  && |firstPart + Ellipsis + lastPart| <= maxLength
                  && (st.lastPart == "" ==> |firstPart + Ellipsis + lastPart| == maxLength))
  {
    var parts := Split(path, sep);
    WalkOnPath(path, maxLength, sep);
    var st := Walk(parts, sep, maxLength, 0, Start);
    firstPart := st.firstPart;
    lastPart := st.lastPart;
    if st.lastPart == "" {
      var name := parts[|parts| - 1];
      var start := |name| + |Ellipsis| + |st.firstPart| - maxLength;
      if start >= 0 {
        lastPart := name[start..];
      }
    }
  }

  /** With '/' as the separator, "aaaa/b" shortened to 5 characters: "aaaa/" does not fit, no
      piece from the end was tried, and the file name "b" is too short for the Substring start
      |"b"| + 3 + 0 - 5 = -1, so the call throws. */
  lemma {:induction false} ShortFileNameThrows()
    ensures Shortened("aaaa/b", 5, '/').None?
  {
    SplitExample();
    var parts := ["aaaa", "b"];
    assert Walk(parts, '/', 5, 0, Start) == Start;
    assert Finish(parts, 5, Start).None?;
  }

  /** The pieces of the example path, "aaaa" and "b". */
  lemma {:induction false} SplitExampleTail()
    ensures Split("a/b", '/') == ["a", "b"]
  {
    assert Split("", '/') == [""];
    assert Split("b", '/') == ["b"] by { SplitStep("", 'b', '/'); assert "b" == ['b'] + ""; }
    assert Split("/b", '/') == ["", "b"] by { SplitStep("b", '/', '/'); assert "/b" == ['/'] + "b"; }
    assert Split("a/b", '/') == ["a", "b"] by { SplitStep("/b", 'a', '/'); assert "a/b" == ['a'] + "/b"; assert ['a'] + "" == "a"; assert ["", "b"][1..] == ["b"]; }
  }

  lemma {:induction false} SplitExample()
    ensures Split("aaaa/b", '/') == ["aaaa", "b"]
  {
    SplitExampleTail();
    assert Split("aa/b", '/') == ["aa", "b"] by { SplitStep("a/b", 'a', '/'); assert "aa/b" == ['a'] + "a/b"; assert ['a'] + "a" == "aa"; assert ["a", "b"][1..] == ["b"]; }
    assert Split("aaa/b", '/') == ["aaa", "b"] by { SplitStep("aa/b", 'a', '/'); assert "aaa/b" == ['a'] + "aa/b"; assert ['a'] + "aa" == "aaa"; assert ["aa", "b"][1..] == ["b"]; }
    assert Split("aaaa/b", '/') == ["aaaa", "b"] by { SplitStep("aaa/b", 'a', '/'); assert "aaaa/b" == ['a'] + "aaa/b"; assert ['a'] + "aaa" == "aaaa"; assert ["aaa", "b"][1..] == ["b"]; }
  }

  /** One step of Split on a string that starts with c. */
  lemma {:induction false} SplitStep(rest: string, c: char, sep: char)
    ensures Split([c] + rest, sep)
            == if c == sep then [""] + Split(rest, sep)
               else [[c] + Split(rest, sep)[0]] + Split(rest, sep)[1..]
  {
    assert ([c] + rest)[1..] == rest;
  }

  /** The evidently intended tail: a file name that fits whole is kept whole, and only a longer
      one is cut to the last characters that fit. */
  function FinishFixed(parts: seq<string>, maxLength: int, st: Shortening): Option<string>
    requires |parts| >= 1
  {
    if st.lastPart == "" then
      var name := parts[|parts| - 1];
      if |name| + |Ellipsis| + |st.firstPart| <= maxLength then Some(st.firstPart + Ellipsis + name)
      else
        var start := |name| + |Ellipsis| + |st.firstPart| - maxLength;
        var length := maxLength - |Ellipsis| - |st.firstPart|;
        if length < 0 then None
        else Some(st.firstPart + Ellipsis + name[start..start + length])
    else Some(st.firstPart + Ellipsis + st.lastPart)
  }

  function ShortenedFixed(path: string, maxLength: int, sep: char): Option<string> {
    if |path| <= maxLength then Some(path)
    else if maxLength <= |Ellipsis| then Some(Ellipsis)
    else
      var parts := Split(path, sep);
      FinishFixed(parts, maxLength, Walk(parts, sep, maxLength, 0, Start))
  }

  /** The corrected shortening never throws: every path longer than maxLength (> 3) becomes a
      prefix of the path, "..." and a suffix of the path, at most maxLength long. */
  lemma {:induction false} ShortenedFixedShape(path: string, maxLength: int, sep: char) returns (firstPart: string, lastPart: string)
    requires maxLength > |Ellipsis| && |path| > maxLength
    ensures ShortenedFixed(path, maxLength, sep) == Some(firstPart + Ellipsis + lastPart)
    ensures firstPart <= path && IsSuffix(lastPart, path) && |firstPart + Ellipsis + lastPart| <= maxLength
  {
    var parts := Split(path, sep);
    var n := |parts|;
    WalkOnPath(path, maxLength, sep);
    var st := Walk(parts, sep, maxLength, 0, Start);
    firstPart := st.firstPart;
    if st.lastPart == "" {
      var name := parts[n - 1];
      if |name| + |Ellipsis| + |st.firstPart| <= maxLength {
        lastPart := name;
      } else {
        var start := |name| + |Ellipsis| + |st.firstPart| - maxLength;
        var length := maxLength - |Ellipsis| - |st.firstPart|;
        lastPart := name[start..];
        assert name[start..start + length] == lastPart;
      }
    } else {
      lastPart := st.lastPart;
    }
  }
}
