/** `fixIfBroken(file:)`: decides from its first 80 bytes whether a file lost
    its header, and if so writes a rebuilt header over those 80 bytes and
    keeps everything after them. Reading and writing the file are left to the
    caller: the file is the in-memory buffer `file`. */
module Repair {
  import opened Bytes
  import opened Padding
  import opened WaveHeader

  /** Whether some byte of `s` is non-zero, the test fix_wave_header.swift applies to the header block. */
  function ContainsNonZero(s: seq<Byte>): (b: bool)
    ensures b <==> exists i :: 0 <= i < |s| && s[i] != 0
  {
    if s == [] then false
    else s[0] != 0 || (assert forall i :: 0 < i < |s| ==> s[i] == s[1..][i - 1]; ContainsNonZero(s[1..]))
  }

  /** A file is broken when its first `headerSize` bytes (all of it, if it is
      shorter, as Swift's `prefix` takes) are zero. */
  function IsBroken(fileData: seq<Byte>): (b: bool)
    ensures b <==> forall i :: 0 <= i < |fileData| && i < HeaderSize ==> fileData[i] == 0
  {
    var prefix := if |fileData| < HeaderSize then fileData else fileData[..HeaderSize];
    !ContainsNonZero(prefix)
  }

  /** What happened to one file: `SKIP`, `FIXD`, or a runtime trap before anything was written. */
  datatype Outcome = Skipped | Fixed | Trapped(trap: Trap)

  /** The outcome of `fixIfBroken` on a file with contents `fileData`. */
  function OutcomeOf(fileData: seq<Byte>): (o: Outcome)
    ensures o == Skipped <==> exists i :: 0 <= i < |fileData| && i < HeaderSize && fileData[i] != 0
    ensures o == Fixed <==> IsBroken(fileData) && HeaderSize <= |fileData| <= Int32Max
    ensures o == Trapped(PayloadSliceOutOfRange) <==> IsBroken(fileData) && |fileData| < HeaderSize
  {
    if !IsBroken(fileData) then Skipped
    else
      match HeaderFor(fileData)
      case Failure(t) => Trapped(t)
      case Success(_) => Fixed
  }

  /** The file's contents once `fixIfBroken` is done with it: the rebuilt
      header followed by the original bytes from offset 80 on when it was
      fixed, the original contents otherwise. Either way the length and every
      byte from offset 80 on are the original ones. */
  function FileAfter(fileData: seq<Byte>): (after: seq<Byte>)
    ensures |after| == |fileData|
    ensures forall i :: HeaderSize <= i < |fileData| ==> after[i] == fileData[i]
  {
    if OutcomeOf(fileData) == Fixed then HeaderFor(fileData).value + fileData[HeaderSize..]
    else fileData
  }

  /** `replaceSubrange` of the range `0..<n` with `n` new bytes, on the
      in-memory copy of the file: the first n bytes become the replacement's
      and the rest stay. */
  method ReplaceSubrange(a: array<Byte>, replacement: seq<Byte>)
    requires |replacement| <= a.Length
    modifies a
    ensures a[..] == replacement + old(a[..])[|replacement|..]
  {
    var i := 0;
    while i < |replacement|
      invariant 0 <= i <= |replacement|
      invariant forall k :: 0 <= k < i ==> a[k] == replacement[k]
      invariant forall k :: i <= k < a.Length ==> a[k] == old(a[k])
    {
      a[i] := replacement[i];
      i := i + 1;
    }
    assert forall k :: 0 <= k < a.Length ==> a[..][k] == (replacement + old(a[..])[|replacement|..])[k];
  }

  /** `fixIfBroken(file:)` on a file held in memory: a file whose first 80 bytes
      are not all zero is skipped and left as it was; a broken one gets the
      rebuilt header over its first 80 bytes, unless a trap stops it first. */
  method FixIfBroken(file: array<Byte>) returns (outcome: Outcome)
    modifies file
    ensures outcome == OutcomeOf(old(file[..]))
    ensures file[..] == FileAfter(old(file[..]))
  {
    var fileData := file[..];
    if !IsBroken(fileData) {
      return Skipped;
    }
    var header := BuildHeader(fileData);
    match header
    case Failure(t) =>
      return Trapped(t);
    case Success(h) =>
      ReplaceSubrange(file, h);
      return Fixed;
  }

  /** A fixed file is the header built from its length and its resolved payload
      length, followed by its original bytes from offset 80 on. */
  lemma FixedFileLayout(fileData: seq<Byte>)
    requires OutcomeOf(fileData) == Fixed
    ensures var h := Header(|fileData| - 8, CountExcludingPadding(fileData[HeaderSize..], BlockAlign));
      FileAfter(fileData) == h + fileData[HeaderSize..] && FileAfter(fileData)[..HeaderSize] == h
  {
  }

  /** A file's contents change exactly when it is fixed: a fixed file starts
      with the non-zero byte `R` where it had a zero. */
  lemma ChangedIffFixed(fileData: seq<Byte>)
    ensures FileAfter(fileData) != fileData <==> OutcomeOf(fileData) == Fixed
  {
  }


  /** A fixed file's first 80 bytes read back as a 24-bit mono PCM header whose
      `RIFF` size is the file length minus 8 and whose `data` size is the
      resolved payload length. */
  lemma FixedHeaderReadsBack(fileData: seq<Byte>)
    requires OutcomeOf(fileData) == Fixed
    ensures ParseHeader(FileAfter(fileData)[..HeaderSize])
      == Some(HeaderFields(|fileData| - 8, Pcm24Mono, CountExcludingPadding(fileData[HeaderSize..], BlockAlign)))
  {
    FixedFileLayout(fileData);
    ParseHeaderOfHeader(|fileData| - 8, CountExcludingPadding(fileData[HeaderSize..], BlockAlign));
  }

  /** Running the repair again on a fixed file skips it and changes nothing. */
  lemma FixIsIdempotent(fileData: seq<Byte>)
    requires OutcomeOf(fileData) == Fixed
    ensures OutcomeOf(FileAfter(fileData)) == Skipped
    ensures FileAfter(FileAfter(fileData)) == FileAfter(fileData)
  {
    var after := FileAfter(fileData);
    FixedFileLayout(fileData);
    HeaderLayout(|fileData| - 8, CountExcludingPadding(fileData[HeaderSize..], BlockAlign));
    assert after[..HeaderSize][0..4][0] == 0x52;
    assert after[0] != 0;
  }

  /** A 200-byte file with a zeroed header, 111 non-zero payload bytes and 9
      zero bytes of padding is fixed with a `RIFF` size of 192 and a `data`
      size of 111. */
  lemma FixExample(fileData: seq<Byte>)
    requires |fileData| == 200
    requires forall i :: 0 <= i < HeaderSize ==> fileData[i] == 0
    requires forall i :: HeaderSize <= i < 191 ==> fileData[i] != 0
    requires forall i :: 191 <= i < 200 ==> fileData[i] == 0
    ensures OutcomeOf(fileData) == Fixed
    ensures ParseHeader(FileAfter(fileData)[..HeaderSize]) == Some(HeaderFields(192, Pcm24Mono, 111))
  {
    var payload := fileData[HeaderSize..];
    StrippedPayloadExample(payload);
    FixedHeaderReadsBack(fileData);
  }
}
