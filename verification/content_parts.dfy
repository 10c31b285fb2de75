/**
 Content parts of one exported message: the raw decoded shapes (a legacy bare
 string or a structured object), the normalised `Part` the renderer consumes,
 and `ProcessParts`, which maps each raw part to zero, one or several
 normalised parts.
 */
module ContentParts {
  import opened Wrappers
  import opened Sequences

  /** An asset pointer. Its record has no fields of its own; the handle stands
      for the identity of the pointed-to object and is never inspected. */
  datatype AssetPointer = AssetPointer(handle: nat)

  /** A decoded content part. Absent JSON fields are the zero value: empty
      strings, nil pointers, an empty frame list. */
  datatype PartData = PartData(
    contentType: string,
    text: string,
    audio: Option<AssetPointer>,
    video: Option<AssetPointer>,
    frames: seq<Option<AssetPointer>>)

  /** The JSON shapes a content part may take in an export: a bare string, a
      JSON null, or a structured object. */
  datatype RawPart =
    | Str(s: string)
    | Null
    | Obj(contentType: string, text: string,
          audio: Option<AssetPointer>, video: Option<AssetPointer>,
          frames: seq<Option<AssetPointer>>)

  /** What a normalised part's dynamically typed asset field may hold: the
      whole raw part, or one of its pointers. */
  datatype Asset = WholePart(data: PartData) | Pointer(ptr: AssetPointer)

  /** A normalised part: three fields, any of which may be the zero value. */
  datatype Part = Part(text: string, transcript: string, asset: Option<Asset>)

  const AudioTranscription: string := "audio_transcription"
  const RealTimeAudioVideo: string := "real_time_user_audio_video_asset_pointer"

  /** The content types whose part is kept whole as one asset. */
  predicate IsAssetPointerType(ct: string) {
    ct == "audio_asset_pointer" || ct == "image_asset_pointer" || ct == "video_container_asset_pointer"
  }

  /** A part carrying only text. */
  predicate IsTextPart(q: Part) {
    q.text != "" && q.transcript == "" && q.asset.None?
  }

  /** A part carrying only an asset. */
  predicate IsAssetPart(q: Part) {
    q.text == "" && q.transcript == "" && q.asset.Some?
  }

  /** A part with every field at its zero value; the renderer prints nothing for it. */
  predicate IsSilentPart(q: Part) {
    q.text == "" && q.transcript == "" && q.asset.None?
  }

  /** The only shapes the normaliser ever produces. None of them carries a transcript. */
  predicate Canonical(q: Part) {
    IsTextPart(q) || IsAssetPart(q) || IsSilentPart(q)
  }

  /* ------------------------------------------------------------------------ */
  /*  Decoding of the two JSON shapes                                          */
  /* ------------------------------------------------------------------------ */

  /** The decoded record for a raw part: a bare string fills only the text
      field, a null leaves every field at its zero value, an object fills every
      field it names. */
  function Decode(raw: RawPart): (d: PartData)
    ensures raw.Str? ==> d == PartData("", raw.s, None, None, [])
    ensures raw.Null? ==> d == PartData("", "", None, None, [])
    ensures raw.Obj? ==> Encode(d) == raw
  {
    match raw
    case Str(s) => PartData("", s, None, None, [])
    case Null => PartData("", "", None, None, [])
    case Obj(ct, text, audio, video, frames) => PartData(ct, text, audio, video, frames)
  }

  /** The object shape of a decoded record. */
  function Encode(d: PartData): RawPart {
    Obj(d.contentType, d.text, d.audio, d.video, d.frames)
  }

  /** Every decoded record is recovered from its object shape, and a bare
      string decodes exactly like the object with that text and nothing else. */
  lemma DecodeEncode(d: PartData, s: string)
    ensures Decode(Encode(d)) == d
    ensures Decode(Str(s)) == Decode(Obj("", s, None, None, []))
  {
  }

  /* ------------------------------------------------------------------------ */
  /*  Fan-out table                                                            */
  /* ------------------------------------------------------------------------ */

  /** 1 when the pointer is present, 0 when nil. */
  function Present(p: Option<AssetPointer>): nat {
    if p.Some? then 1 else 0
  }

  /** The number of non-nil entries of a frame list. */
  function CountSome(fs: seq<Option<AssetPointer>>): nat {
    |fs| - multiset(fs)[None]
  }

  /** How many normalised parts one raw part yields. */
  function FanOut(p: PartData): nat {
    if p.text != "" then 1
    else if p.contentType == AudioTranscription || IsAssetPointerType(p.contentType) then 1
    else if p.contentType == RealTimeAudioVideo then Present(p.audio) + Present(p.video) + CountSome(p.frames)
    else 0
  }

  /** How many normalised parts a list of raw parts yields. */
  function TotalFanOut(ps: seq<PartData>): nat {
    if ps == [] then 0 else FanOut(ps[0]) + TotalFanOut(ps[1..])
  }

  /* ------------------------------------------------------------------------ */
  /*  Normalisation                                                            */
  /* ------------------------------------------------------------------------ */

  /** The asset part for one pointer. */
  function PointerPart(ptr: AssetPointer): Part {
    Part("", "", Some(Pointer(ptr)))
  }

  /** The parts for an optional pointer: one when present, none when nil. */
  function PointerParts(p: Option<AssetPointer>): (r: seq<Part>)
    ensures |r| == Present(p)
    ensures forall q :: q in r ==> IsAssetPart(q)
  {
    if p.Some? then [PointerPart(p.value)] else []
  }

  /** One asset part per non-nil frame, in frame order. */
  function FrameParts(fs: seq<Option<AssetPointer>>): (r: seq<Part>)
    ensures |r| == CountSome(fs)
    ensures forall q :: q in r ==> IsAssetPart(q)
  {
    if fs == [] then []
    else
      assert fs == [fs[0]] + fs[1..];
      PointerParts(fs[0]) + FrameParts(fs[1..])
  }

  /** The parts one raw part yields: non-empty text wins; otherwise the content
      type decides between a transcript, the whole part as an asset, the
      real-time pointers, or nothing. */
  function NormalizePart(p: PartData): (r: seq<Part>)
    ensures |r| == FanOut(p)
    ensures forall q :: q in r ==> Canonical(q)
  {
    if p.text != "" then [Part(p.text, "", None)]
    else if p.contentType == AudioTranscription then [Part("", p.text, None)]
    else if IsAssetPointerType(p.contentType) then [Part("", "", Some(WholePart(p)))]
    else if p.contentType == RealTimeAudioVideo then
      PointerParts(p.audio) + PointerParts(p.video) + FrameParts(p.frames)
    else []
  }

  /** The normalised parts of a whole content list, in input order. */
  function ProcessParts(ps: seq<PartData>): (r: seq<Part>)
    ensures |r| == TotalFanOut(ps)
    ensures forall q :: q in r ==> Canonical(q)
  {
    if ps == [] then [] else NormalizePart(ps[0]) + ProcessParts(ps[1..])
  }

  /* ------------------------------------------------------------------------ */
  /*  Properties                                                               */
  /* ------------------------------------------------------------------------ */

  /** Non-empty text yields exactly one text part, whatever the content type
      and pointers say. */
  lemma TextTakesPrecedence(p: PartData, ct: string)
    requires p.text != ""
    ensures NormalizePart(p) == NormalizePart(p.(contentType := ct)) == [Part(p.text, "", None)]
  {
  }

  /** A real-time part with empty text yields its audio pointer, then its video
      pointer, then its non-nil frames, each only when present. The ordering
      clause is the real-time branch of `NormalizePart` unfolded; the count
      clause states it through the independent `Present` and `CountSome`. */
  lemma RealTimeOrder(p: PartData)
    requires p.text == "" && p.contentType == RealTimeAudioVideo
    ensures NormalizePart(p) == PointerParts(p.audio) + PointerParts(p.video) + FrameParts(p.frames)
    ensures |NormalizePart(p)| == Present(p.audio) + Present(p.video) + CountSome(p.frames)
  {
  }

  /** Frame fan-out is compositional: the frames of a concatenation yield the
      parts of each half, in order. */
  lemma {:induction false} FramePartsAppend(a: seq<Option<AssetPointer>>, b: seq<Option<AssetPointer>>)
    ensures FrameParts(a + b) == FrameParts(a) + FrameParts(b)
    decreases |a|
  {
    if a == [] {
      assert a + b == b;
    } else {
      assert (a + b)[1..] == a[1..] + b;
      FramePartsAppend(a[1..], b);
    }
  }

  /** A frame list `[A, nil, B]` yields exactly the two asset parts for A and B, in order. */
  lemma FramesSkipNil(a: AssetPointer, b: AssetPointer)
    ensures FrameParts([Some(a), None, Some(b)]) == [PointerPart(a), PointerPart(b)]
  {
    assert FrameParts([Some(b)]) == [PointerPart(b)] by {
      assert [Some(b)][1..] == [];
    }
    assert FrameParts([None, Some(b)]) == [PointerPart(b)] by {
      assert [None, Some(b)][1..] == [Some(b)];
    }
    assert [Some(a), None, Some(b)][1..] == [None, Some(b)];
  }

  /** An `audio_transcription` part with empty text yields one part with every
      field at its zero value: it prints nothing, yet it makes the content list
      non-empty after normalisation. */
  lemma TranscriptPartIsSilent(p: PartData)
    requires p.text == "" && p.contentType == AudioTranscription
    ensures NormalizePart(p) == [Part("", "", None)]
    ensures IsSilentPart(NormalizePart(p)[0])
    ensures ProcessParts([p]) != []
  {
    assert [p][1..] == [];
  }

  /** A JSON null part decodes like the empty object and normalises to nothing. */
  lemma NullPartIsSilent()
    ensures Decode(Null) == Decode(Obj("", "", None, None, []))
    ensures NormalizePart(Decode(Null)) == []
    ensures ProcessParts([Decode(Null)]) == []
  {
    assert [Decode(Null)][1..] == [];
  }

  /** Normalisation is compositional: output order follows input order. */
  lemma {:induction false} ProcessPartsAppend(a: seq<PartData>, b: seq<PartData>)
    ensures ProcessParts(a + b) == ProcessParts(a) + ProcessParts(b)
    decreases |a|
  {
    if a == [] {
      assert a + b == b;
    } else {
      assert (a + b)[1..] == a[1..] + b;
      ProcessPartsAppend(a[1..], b);
    }
  }

  /** A content list normalises to nothing exactly when each of its parts fans out to nothing. */
  lemma {:induction false} ProcessPartsEmpty(ps: seq<PartData>)
    ensures ProcessParts(ps) == [] <==> forall i :: 0 <= i < |ps| ==> FanOut(ps[i]) == 0
    decreases |ps|
  {
    if ps != [] {
      ProcessPartsEmpty(ps[1..]);
      assert forall i :: 1 <= i < |ps| ==> ps[i] == ps[1..][i - 1];
    }
  }

  /** Every normalised part has an empty transcript: a transcript part is only
      built when the text, which it copies, is already empty. */
  lemma TranscriptsAlwaysEmpty(ps: seq<PartData>)
    ensures forall q :: q in ProcessParts(ps) ==> q.transcript == ""
  {
  }

  /** A legacy bare string `s` normalises to one text part when non-empty and to nothing when empty. */
  lemma LegacyStringPart(s: string)
    ensures ProcessParts([Decode(Str(s))]) == (if s != "" then [Part(s, "", None)] else [])
  {
  }

  /* ------------------------------------------------------------------------ */
  /*  The append loop                                                          */
  /* ------------------------------------------------------------------------ */

  /** The normaliser as a loop appending to a result list, one raw part per iteration. */
  method ProcessPartsLoop(parts: seq<PartData>) returns (result: seq<Part>)
    ensures result == ProcessParts(parts)
  {
    result := [];
    var i := 0;
    while i < |parts|
      invariant 0 <= i <= |parts|
      invariant result == ProcessParts(parts[..i])
    {
      assert parts[..i + 1] == parts[..i] + [parts[i]];
      ProcessPartsAppend(parts[..i], [parts[i]]);
      assert ProcessParts([parts[i]]) == NormalizePart(parts[i]) by {
        assert [parts[i]][1..] == [];
      }
      result := AppendPart(result, parts[i]);
      i := i + 1;
    }
    assert parts[..i] == parts;
  }

  /** One iteration of the normaliser's loop: the ordered rules for one raw part. */
  method AppendPart(acc: seq<Part>, part: PartData) returns (result: seq<Part>)
    ensures result == acc + NormalizePart(part)
  {
    result := acc;
    if part.text != "" {
      result := result + [Part(part.text, "", None)];
    } else if part.contentType == AudioTranscription {
      result := result + [Part("", part.text, None)];
    } else if IsAssetPointerType(part.contentType) {
      result := result + [Part("", "", Some(WholePart(part)))];
    } else if part.contentType == RealTimeAudioVideo {
      if part.audio.Some? {
        result := result + [Part("", "", Some(Pointer(part.audio.value)))];
      }
      if part.video.Some? {
        result := result + [Part("", "", Some(Pointer(part.video.value)))];
      }
      assert result == acc + (PointerParts(part.audio) + PointerParts(part.video));
      result := AppendFrames(result, part.frames);
    }
  }

  /** The inner loop over the frame pointers: one asset part per non-nil frame. */
  method AppendFrames(acc: seq<Part>, frames: seq<Option<AssetPointer>>) returns (result: seq<Part>)
    ensures result == acc + FrameParts(frames)
  {
    result := acc;
    var j := 0;
    while j < |frames|
      invariant 0 <= j <= |frames|
      invariant result == acc + FrameParts(frames[..j])
    {
      var frame := frames[j];
      FramePartsSnoc(frames, j);
      ConcatAssoc(acc, FrameParts(frames[..j]), PointerParts(frame));
      if frame.Some? {
        result := result + [Part("", "", Some(Pointer(frame.value)))];
      }
      j := j + 1;
    }
    assert frames[..j] == frames;
  }

  lemma FramePartsSnoc(frames: seq<Option<AssetPointer>>, j: nat)
    requires j < |frames|
    ensures FrameParts(frames[..j + 1]) == FrameParts(frames[..j]) + PointerParts(frames[j])
  {
    assert frames[..j + 1] == frames[..j] + [frames[j]];
    FramePartsAppend(frames[..j], [frames[j]]);
    assert [frames[j]][1..] == [];
  }
}
