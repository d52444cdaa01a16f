/// A CinemaDNG clip: a directory of numbered .dng frames whose names differ only in a run of
/// digits, the sequencing field (Core/Clip/ClipCinemaDNG.cs).
module ClipCinemaDng {
  import opened DecimalText

  /** The error codes the clip operations return (a subset of Core.Error). */
  datatype Error = None | BadPath | NoVideoStream | ClipNotValidated | BadFrameIndex

  /** s[pos..pos + len] is the sequencing field of s: a non-empty run of digits, preceded by a
      non-digit, with no digit anywhere after it. */
  ghost predicate IsSequencingField(s: string, pos: int, len: int) {
    1 <= pos && 1 <= len && pos + len <= |s|
    && !IsDigit(s[pos - 1])
    && (forall k :: pos <= k < pos + len ==> IsDigit(s[k]))
    && (forall k :: pos + len <= k < |s| ==> !IsDigit(s[k]))
  }

  /** A path has at most one sequencing field. */
  lemma {:induction false} SequencingFieldUnique(s: string, p1: int, l1: int, p2: int, l2: int)
    requires IsSequencingField(s, p1, l1) && IsSequencingField(s, p2, l2)
    ensures p1 == p2 && l1 == l2
  {
    assert IsDigit(s[p1 + l1 - 1]) && IsDigit(s[p2 + l2 - 1]);
    assert !IsDigit(s[p1 - 1]) && !IsDigit(s[p2 - 1]);
  }

  /** The outcome of GetFrameNumber: Substring throws when the field runs past the end of the path. */
  datatype FrameNumber = FrameNumber(error: Error, frameNumber: nat) | SubstringOutOfRange

  /** The outcome of GetFramePath: writing the field past the end of the path throws. */
  datatype FramePath = FramePath(error: Error, path: Option<string>) | IndexOutOfRange

  /** The character-array rewrite of GetFramePath: field is copied over s from position pos on;
      the write at index |s| throws, which is reported as None. */
  method WriteField(s: string, pos: nat, field: string) returns (r: Option<string>)
    ensures r.None? <==> |field| > 0 && pos + |field| > |s|
    ensures r.Some? && |field| == 0 ==> r.value == s
    ensures r.Some? && |field| > 0 ==>
              |r.value| == |s| && r.value[..pos] == s[..pos]
              && r.value[pos..pos + |field|] == field && r.value[pos + |field|..] == s[pos + |field|..]
  {
    var chars := new char[|s|](j requires 0 <= j < |s| => s[j]);
    var k := 0;
    while k < |field|
      invariant 0 <= k <= |field| && (k == 0 || pos + k <= |s|)
      invariant forall j :: 0 <= j < chars.Length ==>
                  chars[j] == (if pos <= j < pos + k then field[j - pos] else s[j])
    {
      if pos + k >= chars.Length {
        return Option.None;
      }
      chars[pos + k] := field[k];
      k := k + 1;
    }
    var path := chars[..];
    if |field| == 0 {
      return Some(path);
    }
    assert path[..pos] == s[..pos];
    assert path[pos..pos + |field|] == field;
    assert path[pos + |field|..] == s[pos + |field|..];
    return Some(path);
  }

  class Clip {
    var valid: bool
    var sequencingFieldPosition: nat
    var sequencingFieldLength: nat
    var cachedFramePath: string
    var firstFrame: string
    var lastFrame: string

    /** A validated clip knows where the sequencing field of its cached frame path is. */
    ghost predicate Valid()
      reads this
    {
      valid ==> IsSequencingField(cachedFramePath, sequencingFieldPosition, sequencingFieldLength)
    }

    /** A new clip is not validated. */
    constructor ()
      ensures Valid() && !valid
    {
      valid := false;
      sequencingFieldPosition := 0;
      sequencingFieldLength := 0;
      cachedFramePath := "";
      firstFrame := "";
      lastFrame := "";
    }

    /** Validate. Listing the directory is I/O: the model receives whether the directory exists
        and the least and greatest .dng names of the listing (None when it is empty: Min() then
        yields null, reading its length throws, and the exception becomes BadPath). The least name is scanned backwards for its
        sequencing field. */
    method Validate(directoryExists: bool, minPath: Option<string>, maxPath: string) returns (e: Error)
      requires Valid()
      modifies this
      ensures Valid()
      ensures !directoryExists ==> e == BadPath && unchanged(this)
      ensures directoryExists && minPath.None? ==> e == BadPath && unchanged(this)
      ensures directoryExists && minPath.Some? ==>
                var s := minPath.value;
                (e == Error.None || e == NoVideoStream)
                && (e == Error.None <==> valid)
                && (e == Error.None ==>
                      cachedFramePath == s && firstFrame == s && lastFrame == maxPath
                      && IsSequencingField(s, sequencingFieldPosition, sequencingFieldLength))
                && (e == NoVideoStream ==> forall p, l :: !IsSequencingField(s, p, l))
      ensures e == NoVideoStream ==>
                cachedFramePath == old(cachedFramePath) && firstFrame == old(firstFrame)
                && lastFrame == old(lastFrame) && sequencingFieldPosition == old(sequencingFieldPosition)
                && sequencingFieldLength == old(sequencingFieldLength)
    {
      if !directoryExists {
        return BadPath;
      }
      if minPath.None? {
        return BadPath;
      }
      var dngPath := minPath.value;
      var sequenceEndPosition: Option<nat> := Option.None;
      var i := |dngPath| - 1;
      while i >= 0
        invariant -1 <= i < |dngPath|
        invariant sequenceEndPosition.None? ==> forall k :: i < k < |dngPath| ==> !IsDigit(dngPath[k])
        invariant sequenceEndPosition.Some? ==>
                    var end := sequenceEndPosition.value;
                    i + 1 < end <= |dngPath|
                    && (forall k :: i < k < end ==> IsDigit(dngPath[k]))
                    && (forall k :: end <= k < |dngPath| ==> !IsDigit(dngPath[k]))
        invariant unchanged(this)
      {
        var isDigit := IsDigit(dngPath[i]);
        if isDigit && sequenceEndPosition.None? {
          sequenceEndPosition := Some(i + 1);
        }
        if !isDigit && sequenceEndPosition.Some? {
          sequencingFieldPosition := i + 1;
          sequencingFieldLength := sequenceEndPosition.value - sequencingFieldPosition;
          cachedFramePath := dngPath;
          firstFrame := dngPath;
          lastFrame := maxPath;
          valid := true;
          return Error.None;
        }
        i := i - 1;
      }
      valid := false;
      forall p, l ensures !IsSequencingField(dngPath, p, l) {
        if 1 <= p <= |dngPath| {
          assert !IsDigit(dngPath[p - 1]) ==> sequenceEndPosition.Some? ==> p > sequenceEndPosition.value;
          assert p < |dngPath| && IsDigit(dngPath[p]) ==> sequenceEndPosition.Some? && p < sequenceEndPosition.value;
        }
      }
      return NoVideoStream;
    }

    /** GetFramePath: the cached frame path with the frame number, zero-padded to the field
        length, written over the sequencing field. A number with more digits than the field
        overwrites the characters after it, and throws once it runs past the end. */
    method GetFramePath(frame: nat) returns (r: FramePath)
      requires Valid() && frame < Uint32Modulus
      ensures !valid ==> r == FramePath(ClipNotValidated, Option.None)
      ensures valid ==>
                var field := ZeroPad(frame, sequencingFieldLength);
                var pos := sequencingFieldPosition;
                (r.IndexOutOfRange? <==> pos + |field| > |cachedFramePath|)
                && (r.FramePath? ==>
                      r.error == Error.None && r.path.Some?
                      && |r.path.value| == |cachedFramePath|
                      && r.path.value[..pos] == cachedFramePath[..pos]
                      && r.path.value[pos..pos + |field|] == field
                      && r.path.value[pos + |field|..] == cachedFramePath[pos + |field|..])
      ensures valid && frame < Pow10(sequencingFieldLength) ==>
                r.FramePath? && GetFrameNumber(r.path.value) == FrameNumber(Error.None, frame)
    {
      if !valid {
        return FramePath(ClipNotValidated, Option.None);
      }
      var field := ZeroPad(frame, sequencingFieldLength);
      var pos := sequencingFieldPosition;
      var cached := cachedFramePath;
      if frame < Pow10(sequencingFieldLength) {
        DigitsLength(frame, sequencingFieldLength);
      }
      var written := WriteField(cached, pos, field);
      if written.None? {
        return IndexOutOfRange;
      }
      if frame < Pow10(sequencingFieldLength) {
        ZeroPadValue(frame, sequencingFieldLength);
        assert written.value[pos..pos + sequencingFieldLength] == field;
      }
      return FramePath(Error.None, written);
    }

    /** GetFrameNumber: the characters of the sequencing field, parsed as a uint; BadFrameIndex
        (with 0) when they are not one. */
    function GetFrameNumber(dngFramePath: string): (r: FrameNumber)
      reads this
      ensures var pos := sequencingFieldPosition;
              var len := sequencingFieldLength;
              (r.SubstringOutOfRange? <==> pos + len > |dngFramePath|)
              && (r.FrameNumber? ==>
                    var field := dngFramePath[pos..pos + len];
                    (r.error == Error.None <==> |field| > 0 && AllDigits(field) && Value(field) < Uint32Modulus)
                    && (r.error == Error.None ==> r.frameNumber == Value(field))
                    && (r.error != Error.None ==> r.error == BadFrameIndex && r.frameNumber == 0))
    {
      var pos := sequencingFieldPosition;
      var len := sequencingFieldLength;
      if pos + len > |dngFramePath| then SubstringOutOfRange
      else
        match ParseUInt(dngFramePath[pos..pos + len])
        case Some(n) => FrameNumber(Error.None, n)
        case None => FrameNumber(BadFrameIndex, 0)
    }
  }
}
