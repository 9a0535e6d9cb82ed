/**
 * The core of the audio generator for flashcard CSV files:
 * file-name sanitising, silence generation, assembly of multi-phrase
 * audio with a pause between phrases, and the per-word loop over a CSV.
 *
 * Speech synthesis is a function parameter (`Synth`); the output directory
 * is the set of file names present in it.
 */
module FlashcardAudio {
  import opened Wrappers
  import opened PyStr
  import opened StrOrder

  /** Raw PCM audio and its sample rate, as returned by one synthesis request. */
  datatype Clip = Clip(pcm: seq<bv8>, rate: nat)

  /** The text-to-speech service including its retries: the clip for a text, or
      `None` when the tool got no audio for it (every attempt failed, or a
      response arrived without audio data and the tool gave up at once). */
  type Synth = string -> Option<Clip>

  /** Default pause between phrases, in milliseconds. */
  const PauseMs: nat := 500

  // ---------------------------------------------------------------------
  // sanitize_filename

  /** The characters a sanitised file name may keep. */
  predicate Allowed(c: char) {
    IsAlnum(c) || c == '_' || c == '-' || c == '.'
  }

  /** The allowed characters of `s`, in order. */
  function KeepAllowed(s: string): (r: string)
    ensures |r| <= |s|
    ensures forall i :: 0 <= i < |r| ==> Allowed(r[i])
    decreases |s|
  {
    if s == [] then []
    else (if Allowed(s[0]) then [s[0]] else []) + KeepAllowed(s[1..])
  }

  /** `sanitize_filename`: spaces and slashes become underscores, then everything
      but alphanumerics, `_`, `-` and `.` is dropped. */
  function SanitizeFilename(text: string): (r: string)
    ensures |r| <= |text|
    ensures forall i :: 0 <= i < |r| ==> IsAlnum(r[i]) || r[i] == '_' || r[i] == '-' || r[i] == '.'
    ensures ' ' !in r && '/' !in r
  {
    KeepAllowed(ReplaceChar(ReplaceChar(text, ' ', '_'), '/', '_'))
  }

  /** What a single character of the text contributes to the file name. */
  function SanitizedChar(c: char): string {
    if c == ' ' || c == '/' then "_"
    else if Allowed(c) then [c]
    else ""
  }

  lemma {:induction false} KeepAllowedConcat(a: string, b: string)
    ensures KeepAllowed(a + b) == KeepAllowed(a) + KeepAllowed(b)
    decreases |a|
  {
    if a == [] {
      assert a + b == b;
    } else {
      var ab := a + b;
      assert ab[0] == a[0];
      assert ab[1..] == a[1..] + b;
      KeepAllowedConcat(a[1..], b);
    }
  }

  /** Sanitising works character by character: the name of a concatenation is the
      concatenation of the names, so kept characters keep their order. */
  lemma SanitizeConcat(a: string, b: string)
    ensures SanitizeFilename(a + b) == SanitizeFilename(a) + SanitizeFilename(b)
  {
    var ra := ReplaceChar(ReplaceChar(a, ' ', '_'), '/', '_');
    var rb := ReplaceChar(ReplaceChar(b, ' ', '_'), '/', '_');
    assert ReplaceChar(ReplaceChar(a + b, ' ', '_'), '/', '_') == ra + rb;
    KeepAllowedConcat(ra, rb);
  }

  /** A space or slash becomes exactly one underscore, an allowed character is
      kept, anything else is dropped. */
  lemma SanitizeOneChar(c: char)
    ensures SanitizeFilename([c]) == SanitizedChar(c)
  {
    var r := ReplaceChar(ReplaceChar([c], ' ', '_'), '/', '_');
    assert r == [if c == ' ' || c == '/' then '_' else c];
    assert KeepAllowed(r) == (if Allowed(r[0]) then [r[0]] else []) + KeepAllowed([]);
  }

  lemma {:induction false} KeepAllowedIdentity(s: string)
    requires forall i :: 0 <= i < |s| ==> Allowed(s[i])
    ensures KeepAllowed(s) == s
    decreases |s|
  {
    if s != [] {
      KeepAllowedIdentity(s[1..]);
      assert s == [s[0]] + s[1..];
    }
  }

  /** The names sanitising leaves unchanged are exactly those made only of
      allowed characters other than space and slash. */
  lemma SanitizeFixedPoint(s: string)
    ensures SanitizeFilename(s) == s <==> forall i :: 0 <= i < |s| ==> Allowed(s[i])
  {
    if forall i :: 0 <= i < |s| ==> Allowed(s[i]) {
      assert ReplaceChar(ReplaceChar(s, ' ', '_'), '/', '_') == s;
      KeepAllowedIdentity(s);
    }
  }

  /** `sanitize_filename` is idempotent. */
  lemma SanitizeIdempotent(text: string)
    ensures SanitizeFilename(SanitizeFilename(text)) == SanitizeFilename(text)
  {
    SanitizeFixedPoint(SanitizeFilename(text));
  }

  /** Number of occurrences of `c` in `s`. */
  function Occurrences(s: string, c: char): nat
    decreases |s|
  {
    if s == [] then 0 else (if s[0] == c then 1 else 0) + Occurrences(s[1..], c)
  }

  /** The underscores of the name are the spaces, slashes and underscores of the text. */
  lemma {:induction false} SanitizeUnderscores(text: string)
    ensures Occurrences(SanitizeFilename(text), '_')
         == Occurrences(text, ' ') + Occurrences(text, '/') + Occurrences(text, '_')
    decreases |text|
  {
    if text != [] {
      assert text == [text[0]] + text[1..];
      SanitizeConcat([text[0]], text[1..]);
      SanitizeOneChar(text[0]);
      OccurrencesConcat(SanitizedChar(text[0]), SanitizeFilename(text[1..]), '_');
      SanitizeUnderscores(text[1..]);
    }
  }

  lemma {:induction false} OccurrencesConcat(a: string, b: string, c: char)
    ensures Occurrences(a + b, c) == Occurrences(a, c) + Occurrences(b, c)
    decreases |a|
  {
    if a == [] {
      assert a + b == b;
    } else {
      var ab := a + b;
      assert ab[0] == a[0];
      assert ab[1..] == a[1..] + b;
      OccurrencesConcat(a[1..], b, c);
    }
  }

  // ---------------------------------------------------------------------
  // generate_silence_pcm

  /** `generate_silence_pcm`: `duration_ms` of silence, as zero bytes. */
  function GenerateSilencePcm(durationMs: nat, sampleRate: nat, numChannels: nat, sampleWidth: nat): (r: seq<bv8>)
    ensures forall i :: 0 <= i < |r| ==> r[i] == 0
    ensures |r| == (sampleRate * durationMs / 1000) * numChannels * sampleWidth
  {
    var numSamples := sampleRate * durationMs / 1000;
    var numBytes := numSamples * numChannels * sampleWidth;
    seq(numBytes, _ => 0)
  }

  /** Silence is a whole number of frames of `numChannels * sampleWidth` bytes. */
  lemma SilenceWholeFrames(durationMs: nat, sampleRate: nat, numChannels: nat, sampleWidth: nat)
    requires numChannels * sampleWidth > 0
    ensures |GenerateSilencePcm(durationMs, sampleRate, numChannels, sampleWidth)| % (numChannels * sampleWidth) == 0
  {
    var n := sampleRate * durationMs / 1000;
    var f := numChannels * sampleWidth;
    assert n * numChannels * sampleWidth == n * f;
    DivModUnique(n * f, f, n, 0);
  }

  lemma MulNonNegative(a: int, b: int)
    requires a >= 0 && b >= 0
    ensures a * b >= 0
  {
  }

  /** Remainders are unique: `x == q * f + r` with `0 <= r < f` fixes `x % f`. */
  lemma DivModUnique(x: int, f: int, q: int, r: int)
    requires f > 0 && 0 <= r < f && x == q * f + r
    ensures x % f == r
  {
    var q', r' := x / f, x % f;
    assert x == q' * f + r';
    assert (q - q') * f == r' - r;
    if q - q' >= 1 {
      MulNonNegative(q - q' - 1, f);
    } else if q' - q >= 1 {
      MulNonNegative(q' - q - 1, f);
    }
  }

  // ---------------------------------------------------------------------
  // splitting a text into phrases

  /** Every string of `ps` is non-empty and already stripped. */
  predicate AllClean(ps: seq<string>) {
    forall j :: 0 <= j < |ps| ==> ps[j] != [] && Strip(ps[j]) == ps[j]
  }

  /** The stripped pieces that are not empty, in order. */
  function StrippedNonEmpty(pieces: seq<string>): (r: seq<string>)
    ensures |r| <= |pieces|
    decreases |pieces|
  {
    if pieces == [] then []
    else
      var p := Strip(pieces[0]);
      (if p != [] then [p] else []) + StrippedNonEmpty(pieces[1..])
  }

  lemma {:induction false} StrippedNonEmptyClean(pieces: seq<string>)
    ensures AllClean(StrippedNonEmpty(pieces))
    decreases |pieces|
  {
    if pieces != [] {
      StripIdempotent(pieces[0]);
      StrippedNonEmptyClean(pieces[1..]);
    }
  }

  /** No string of `ps` contains `c`. */
  predicate Excludes(ps: seq<string>, c: char) {
    forall k :: 0 <= k < |ps| ==> c !in ps[k]
  }

  lemma {:induction false} StrippedNonEmptyExcludes(pieces: seq<string>, c: char)
    requires Excludes(pieces, c)
    ensures Excludes(StrippedNonEmpty(pieces), c)
    decreases |pieces|
  {
    if pieces != [] {
      StripKeepsOut(pieces[0], c);
      StrippedNonEmptyExcludes(pieces[1..], c);
    }
  }

  /** The phrases of a text containing `/`: the `/`-separated pieces, stripped,
      with the empty ones dropped. */
  function PhraseParts(text: string): (parts: seq<string>)
    ensures forall k :: 0 <= k < |parts| ==> parts[k] != [] && '/' !in parts[k] && Strip(parts[k]) == parts[k]
  {
    var pieces := SplitOn(text, '/');
    StrippedNonEmptyExcludes(pieces, '/');
    StrippedNonEmptyClean(pieces);
    StrippedNonEmpty(pieces)
  }

  /** Every character is a slash or whitespace. */
  predicate SlashesAndSpaces(text: string) {
    forall i :: 0 <= i < |text| ==> text[i] == '/' || IsSpace(text[i])
  }

  /** Every piece is all whitespace. */
  predicate AllBlank(pieces: seq<string>) {
    forall j :: 0 <= j < |pieces| ==> AllSpace(pieces[j])
  }

  lemma AllBlankCons(p: string, ps: seq<string>)
    ensures AllBlank([p] + ps) <==> AllSpace(p) && AllBlank(ps)
  {
    var qs := [p] + ps;
    assert qs[0] == p;
    assert forall j :: 0 <= j < |ps| ==> qs[j + 1] == ps[j];
  }

  lemma AllSpaceCons(c: char, t: string)
    ensures AllSpace([c] + t) <==> IsSpace(c) && AllSpace(t)
  {
    var u := [c] + t;
    assert u[0] == c;
    assert forall i :: 0 <= i < |t| ==> u[i + 1] == t[i];
  }

  lemma SlashesAndSpacesCons(text: string)
    requires text != []
    ensures SlashesAndSpaces(text) <==> (text[0] == '/' || IsSpace(text[0])) && SlashesAndSpaces(text[1..])
  {
    assert forall i :: 0 <= i < |text[1..]| ==> text[1..][i] == text[i + 1];
  }

  lemma {:induction false} StrippedNonEmptyEmpty(pieces: seq<string>)
    ensures StrippedNonEmpty(pieces) == [] <==> AllBlank(pieces)
    decreases |pieces|
  {
    if pieces != [] {
      StripEmptyIffAllSpace(pieces[0]);
      StrippedNonEmptyEmpty(pieces[1..]);
      AllBlankCons(pieces[0], pieces[1..]);
      assert [pieces[0]] + pieces[1..] == pieces;
    }
  }

  /** The pieces between slashes are all blank exactly when the text is only
      slashes and whitespace. */
  lemma {:induction false} BlankPieces(text: string)
    ensures AllBlank(SplitOn(text, '/')) <==> SlashesAndSpaces(text)
    decreases |text|
  {
    if text == [] {
      assert SplitOn(text, '/') == [""];
    } else {
      BlankPieces(text[1..]);
      SlashesAndSpacesCons(text);
      var rest := SplitOn(text[1..], '/');
      if text[0] == '/' {
        assert SplitOn(text, '/') == [""] + rest;
        AllBlankCons("", rest);
      } else {
        assert SplitOn(text, '/') == [[text[0]] + rest[0]] + rest[1..];
        AllBlankCons([text[0]] + rest[0], rest[1..]);
        AllSpaceCons(text[0], rest[0]);
        AllBlankCons(rest[0], rest[1..]);
        assert [rest[0]] + rest[1..] == rest;
      }
    }
  }

  lemma NoPartsIffBlank(text: string)
    ensures StrippedNonEmpty(SplitOn(text, '/')) == [] <==> SlashesAndSpaces(text)
  {
    StrippedNonEmptyEmpty(SplitOn(text, '/'));
    BlankPieces(text);
  }

  /** No phrase is left exactly when the text is made only of slashes and whitespace. */
  lemma PhrasePartsEmpty(text: string)
    ensures PhraseParts(text) == [] <==> SlashesAndSpaces(text)
  {
    NoPartsIffBlank(text);
  }

  lemma {:induction false} StrippedNonEmptyIdentity(pieces: seq<string>)
    requires AllClean(pieces)
    ensures StrippedNonEmpty(pieces) == pieces
    decreases |pieces|
  {
    if pieces != [] {
      var tail := pieces[1..];
      assert AllClean(tail) by {
        forall j | 0 <= j < |tail| ensures tail[j] != [] && Strip(tail[j]) == tail[j] {
          assert tail[j] == pieces[j + 1];
        }
      }
      StrippedNonEmptyIdentity(tail);
      var p := Strip(pieces[0]);
      assert p == pieces[0] && p != [];
      assert StrippedNonEmpty(pieces) == [p] + StrippedNonEmpty(tail);
      assert [pieces[0]] + tail == pieces;
    }
  }

  /** When no piece between slashes is empty or padded with whitespace, the phrases
      are exactly those pieces, in order, and joining them with `/` gives back the text. */
  lemma PhrasePartsOfCleanText(text: string)
    requires AllClean(SplitOn(text, '/'))
    ensures PhraseParts(text) == SplitOn(text, '/')
    ensures JoinWith(PhraseParts(text), '/') == text
  {
    StrippedNonEmptyIdentity(SplitOn(text, '/'));
    JoinSplitOn(text, '/');
  }

  // ---------------------------------------------------------------------
  // combining the phrases' audio

  /** The chunks in order with `gap` between neighbours and none after the last. */
  function JoinPcm(chunks: seq<seq<bv8>>, gap: seq<bv8>): seq<bv8>
    decreases |chunks|
  {
    if |chunks| == 0 then []
    else if |chunks| == 1 then chunks[0]
    else JoinPcm(chunks[..|chunks| - 1], gap) + gap + chunks[|chunks| - 1]
  }

  /** Sum of the chunks' lengths. */
  function TotalLength(chunks: seq<seq<bv8>>): nat
    decreases |chunks|
  {
    if |chunks| == 0 then 0 else TotalLength(chunks[..|chunks| - 1]) + |chunks[|chunks| - 1]|
  }

  /** The joined audio is empty for no chunks, and otherwise as long as the chunks
      together plus one gap between each pair of neighbours. */
  lemma {:induction false} JoinPcmLength(chunks: seq<seq<bv8>>, gap: seq<bv8>)
    ensures |chunks| == 0 ==> JoinPcm(chunks, gap) == []
    ensures |chunks| >= 1 ==> |JoinPcm(chunks, gap)| == TotalLength(chunks) + (|chunks| - 1) * |gap|
    decreases |chunks|
  {
    var n := |chunks|;
    if n > 1 {
      JoinPcmLength(chunks[..n - 1], gap);
      assert (n - 1) * |gap| == (n - 2) * |gap| + |gap|;
    }
  }

  /** Offset at which chunk `i` starts in the joined audio. */
  function ChunkStart(chunks: seq<seq<bv8>>, gap: seq<bv8>, i: nat): nat
    requires i <= |chunks|
  {
    TotalLength(chunks[..i]) + i * |gap|
  }

  /** The last chunk ends the joined audio, right after a gap when it is not the
      only chunk. */
  lemma JoinPcmLast(chunks: seq<seq<bv8>>, gap: seq<bv8>)
    requires |chunks| >= 1
    ensures ChunkStart(chunks, gap, |chunks| - 1) + |chunks[|chunks| - 1]| == |JoinPcm(chunks, gap)|
    ensures JoinPcm(chunks, gap)[ChunkStart(chunks, gap, |chunks| - 1)..] == chunks[|chunks| - 1]
    ensures |chunks| > 1 ==>
              JoinPcm(chunks, gap)[ChunkStart(chunks, gap, |chunks| - 1) - |gap|..ChunkStart(chunks, gap, |chunks| - 1)] == gap
  {
    if |chunks| == 1 {
      assert chunks[..0] == [];
    } else {
      JoinPcmLastAfterGap(chunks, gap);
    }
  }

  /** The last of several chunks starts right after the join of the others and
      one gap. */
  lemma JoinPcmLastAfterGap(chunks: seq<seq<bv8>>, gap: seq<bv8>)
    requires |chunks| > 1
    ensures ChunkStart(chunks, gap, |chunks| - 1) == |JoinPcm(chunks[..|chunks| - 1], gap)| + |gap|
  {
    var n := |chunks|;
    JoinPcmLength(chunks[..n - 1], gap);
    assert (n - 1) * |gap| == (n - 2) * |gap| + |gap|;
  }

  /** Layout of the joined audio: chunk `i` sits at its offset, a gap comes right
      before every chunk but the first, and the last chunk ends the audio. */
  lemma {:induction false} JoinPcmLayout(chunks: seq<seq<bv8>>, gap: seq<bv8>, i: nat)
    requires i < |chunks|
    ensures ChunkStart(chunks, gap, i) + |chunks[i]| <= |JoinPcm(chunks, gap)|
    ensures JoinPcm(chunks, gap)[ChunkStart(chunks, gap, i)..ChunkStart(chunks, gap, i) + |chunks[i]|] == chunks[i]
    ensures i > 0 ==> (|gap| <= ChunkStart(chunks, gap, i)
                       && JoinPcm(chunks, gap)[ChunkStart(chunks, gap, i) - |gap|..ChunkStart(chunks, gap, i)] == gap)
    ensures i == |chunks| - 1 ==> ChunkStart(chunks, gap, i) + |chunks[i]| == |JoinPcm(chunks, gap)|
    decreases |chunks|, 1
  {
    if i == |chunks| - 1 {
      JoinPcmLast(chunks, gap);
    } else {
      JoinPcmLayoutEarlier(chunks, gap, i);
    }
  }

  /** `JoinPcmLayout` for a chunk before the last: it sits where it sits in the
      join of all chunks but the last. */
  lemma {:induction false} JoinPcmLayoutEarlier(chunks: seq<seq<bv8>>, gap: seq<bv8>, i: nat)
    requires i < |chunks| - 1
    ensures ChunkStart(chunks, gap, i) + |chunks[i]| <= |JoinPcm(chunks, gap)|
    ensures JoinPcm(chunks, gap)[ChunkStart(chunks, gap, i)..ChunkStart(chunks, gap, i) + |chunks[i]|] == chunks[i]
    ensures i > 0 ==> (|gap| <= ChunkStart(chunks, gap, i)
                       && JoinPcm(chunks, gap)[ChunkStart(chunks, gap, i) - |gap|..ChunkStart(chunks, gap, i)] == gap)
    decreases |chunks|, 0
  {
    var n := |chunks|;
    var j := JoinPcm(chunks, gap);
    var s := ChunkStart(chunks, gap, i);
    var init := chunks[..n - 1];
    var ji := JoinPcm(init, gap);
    assert j == ji + gap + chunks[n - 1];
    JoinPcmLayout(init, gap, i);
    assert init[..i] == chunks[..i];
    assert ChunkStart(init, gap, i) == s;
    assert j[..|ji|] == ji;
    if i > 0 {
      assert j[s - |gap|..s] == ji[s - |gap|..s];
    }
    assert j[s..s + |chunks[i]|] == ji[s..s + |chunks[i]|];
  }

  /** The PCM bytes synthesised for each phrase (empty where synthesis failed). */
  function PcmOf(parts: seq<string>, synth: Synth): (r: seq<seq<bv8>>)
    ensures |r| == |parts|
  {
    seq(|parts|, i requires 0 <= i < |parts| => synth(parts[i]).GetOr(Clip([], 0)).pcm)
  }

  /** Phrase `i` was synthesised, at the same sample rate as the first phrase. */
  predicate Usable(parts: seq<string>, synth: Synth, i: nat)
    requires i < |parts|
  {
    synth(parts[i]).Some? && synth(parts[0]).Some?
    && synth(parts[i]).value.rate == synth(parts[0]).value.rate
  }

  // ---------------------------------------------------------------------
  // generate_and_save_audio

  /** What `generate_and_save_audio` did with the output file. The source returns
      `True` for the first two and `False` for `Failed`. */
  datatype SaveResult =
    | AlreadyExists     // the file was there; nothing synthesised, nothing written
    | Saved(clip: Clip) // this audio was written (as a WAV file)
    | Failed            // nothing written
  {
    predicate Succeeded() {
      !Failed?
    }
  }

  /** The outcome of the `/` branch for the phrases `parts`: the audio is saved
      exactly when every phrase was synthesised at the first phrase's rate, and is
      then the phrases' PCM with one pause between neighbours; otherwise synthesis
      stopped at the first phrase that failed or had another rate. */
  predicate PhrasesOutcome(parts: seq<string>, synth: Synth, pauseMs: nat, res: SaveResult, requested: seq<string>) {
    && (res.Saved? <==> parts != [] && forall i :: 0 <= i < |parts| ==> Usable(parts, synth, i))
    && (res.Saved? ==>
          && synth(parts[0]).Some?
          && requested == parts
          && res.clip.rate == synth(parts[0]).value.rate
          && res.clip.pcm == JoinPcm(PcmOf(parts, synth), GenerateSilencePcm(pauseMs, res.clip.rate, 1, 2)))
    && (!res.Saved? ==>
          && res.Failed?
          && |requested| <= |parts| && requested == parts[..|requested|]
          && (parts != [] ==>
                && |requested| > 0
                && !Usable(parts, synth, |requested| - 1)
                && forall i :: 0 <= i < |requested| - 1 ==> Usable(parts, synth, i)))
  }

  /** The audio assembled after the first `idx` phrases: their PCM joined by the
      pause, followed by one more pause while phrases remain. */
  function Partial(parts: seq<string>, synth: Synth, silence: seq<bv8>, idx: nat): seq<bv8>
    requires idx <= |parts|
  {
    if idx == 0 then []
    else JoinPcm(PcmOf(parts[..idx], synth), silence) + (if idx < |parts| then silence else [])
  }

  lemma PartialStep(parts: seq<string>, synth: Synth, silence: seq<bv8>, idx: nat)
    requires idx < |parts|
    ensures Partial(parts, synth, silence, idx + 1)
         == Partial(parts, synth, silence, idx) + PcmOf(parts, synth)[idx]
            + (if idx < |parts| - 1 then silence else [])
  {
    var pcms := PcmOf(parts[..idx + 1], synth);
    assert pcms[idx] == PcmOf(parts, synth)[idx];
    if idx > 0 {
      assert pcms[..idx] == PcmOf(parts[..idx], synth);
    }
  }

  /** The `/` branch of `generate_and_save_audio` once the phrases are known:
      synthesise each phrase in turn and concatenate the audio with a pause
      between neighbours. */
  method CombinePhrases(parts: seq<string>, synth: Synth, pauseMs: nat)
    returns (res: SaveResult, requested: seq<string>)
    ensures PhrasesOutcome(parts, synth, pauseMs, res, requested)
  {
    if parts == [] {
      return Failed, [];
    }
    var combined: seq<bv8> := [];
    var sampleRate: Option<nat> := None;
    requested := [];
    for idx := 0 to |parts|
      invariant requested == parts[..idx]
      invariant forall i :: 0 <= i < idx ==> Usable(parts, synth, i)
      invariant idx > 0 ==> synth(parts[0]).Some?
      invariant sampleRate == if idx == 0 then None else Some(synth(parts[0]).value.rate)
      invariant idx > 0 ==> combined == Partial(parts, synth, GenerateSilencePcm(pauseMs, synth(parts[0]).value.rate, 1, 2), idx)
      invariant idx == 0 ==> combined == []
    {
      var part := parts[idx];
      requested := requested + [part];
      assert requested == parts[..idx + 1];
      var got := synth(part);
      if got.None? {
        assert !Usable(parts, synth, idx);
        return Failed, requested;
      }
      var pcm, rate := got.value.pcm, got.value.rate;
      if sampleRate.None? {
        sampleRate := Some(rate);
      } else if sampleRate.value != rate {
        assert !Usable(parts, synth, idx);
        return Failed, requested;
      }
      var silence := GenerateSilencePcm(pauseMs, sampleRate.value, 1, 2);
      PartialStep(parts, synth, silence, idx);
      combined := combined + pcm;
      if idx < |parts| - 1 {
        combined := combined + silence;
      }
    }
    assert parts[..|parts|] == parts;
    return Saved(Clip(combined, sampleRate.value)), requested;
  }

  /** `generate_and_save_audio`: what happened to the output file, and the texts
      sent for synthesis, in order. */
  method GenerateAndSaveAudio(text: string, fileExists: bool, synth: Synth, pauseMs: nat)
    returns (res: SaveResult, requested: seq<string>)
    ensures res.AlreadyExists? <==> fileExists
    ensures fileExists ==> requested == []
    ensures !fileExists && '/' !in text ==>
              requested == [text] && res == (if synth(text).Some? then Saved(synth(text).value) else Failed)
    ensures !fileExists && '/' in text ==> PhrasesOutcome(PhraseParts(text), synth, pauseMs, res, requested)
  {
    if fileExists {
      return AlreadyExists, [];
    }
    if '/' in text {
      res, requested := CombinePhrases(PhraseParts(text), synth, pauseMs);
    } else {
      requested := [text];
      var got := synth(text);
      if got.None? {
        return Failed, requested;
      }
      return Saved(got.value), requested;
    }
  }

  // ---------------------------------------------------------------------
  // process_csv

  /** One CSV row's first two cells; `None` is a missing (NaN) cell. */
  type Row = (Option<string>, Option<string>)

  /** The CSV file as the tool finds it. */
  datatype Csv =
    | Missing               // no file at the given path
    | TooFewColumns         // fewer than two columns
    | Table(rows: seq<Row>)

  function Cell(row: Row, col: nat): Option<string>
    requires col < 2
  {
    if col == 0 then row.0 else row.1
  }

  /** The distinct non-missing values of column `col`. */
  function ColumnValues(rows: seq<Row>, col: nat): (vs: set<string>)
    requires col < 2
    ensures forall w :: w in vs <==> exists i :: 0 <= i < |rows| && Cell(rows[i], col) == Some(w)
  {
    set i | 0 <= i < |rows| && Cell(rows[i], col).Some? :: Cell(rows[i], col).value
  }

  /** Name of the audio file written for a (stripped) word. */
  function AudioFileName(word: string): string {
    SanitizeFilename(word) + ".wav"
  }

  /** The audio file name ends in `.wav` and has no space or slash, so it names a
      file directly inside the output directory. */
  lemma AudioFileNameInDirectory(word: string)
    ensures |AudioFileName(word)| >= 4 && AudioFileName(word)[|AudioFileName(word)| - 4..] == ".wav"
    ensures ' ' !in AudioFileName(word) && '/' !in AudioFileName(word)
  {
    var stem := SanitizeFilename(word);
    assert AudioFileName(word) == stem + ".wav";
    assert forall i :: 0 <= i < |stem| ==> AudioFileName(word)[i] == stem[i];
  }

  /** Words that differ only in spaces, slashes and underscores share one audio
      file, so the second of them finds its file already present. */
  lemma AudioFileNameShared()
    ensures AudioFileName("a b") == AudioFileName("a/b") == AudioFileName("a_b") == "a_b.wav"
  {
    SanitizeSpaced();
    SanitizeSlashed();
    SanitizeUnderscored();
  }

  lemma SanitizeSpaced()
    ensures SanitizeFilename("a b") == "a_b"
  {
    SanitizeThree('a', ' ', 'b');
  }

  lemma SanitizeSlashed()
    ensures SanitizeFilename("a/b") == "a_b"
  {
    SanitizeThree('a', '/', 'b');
  }

  lemma SanitizeUnderscored()
    ensures SanitizeFilename("a_b") == "a_b"
  {
    SanitizeThree('a', '_', 'b');
  }

  /** The name of a three-character text, character by character. */
  lemma SanitizeThree(x: char, y: char, z: char)
    ensures SanitizeFilename([x, y, z]) == SanitizedChar(x) + SanitizedChar(y) + SanitizedChar(z)
  {
    assert [x, y, z] == [x] + ([y] + [z]);
    SanitizeConcat([x], [y] + [z]);
    SanitizeConcat([y], [z]);
    SanitizeOneChar(x);
    SanitizeOneChar(y);
    SanitizeOneChar(z);
  }

  /** How many outcomes are successes. */
  function CountSucceeded(outcomes: seq<Option<bool>>): (n: nat)
    ensures n <= |outcomes|
    decreases |outcomes|
  {
    if outcomes == [] then 0
    else CountSucceeded(outcomes[..|outcomes| - 1]) + (if outcomes[|outcomes| - 1] == Some(true) then 1 else 0)
  }

  /** Every outcome counts as a success only when every outcome is one. */
  lemma {:induction false} AllSucceeded(outcomes: seq<Option<bool>>)
    requires CountSucceeded(outcomes) == |outcomes|
    ensures forall i :: 0 <= i < |outcomes| ==> outcomes[i] == Some(true)
    decreases |outcomes|
  {
    if outcomes != [] {
      var init := outcomes[..|outcomes| - 1];
      AllSucceeded(init);
      assert forall i :: 0 <= i < |init| ==> outcomes[i] == init[i];
    }
  }

  /** The audio files present after the words with the given outcomes were processed. */
  function FilesAfter(existing: set<string>, words: seq<string>, outcomes: seq<Option<bool>>, n: nat): set<string>
    requires n <= |words| && n <= |outcomes|
  {
    existing + set i | 0 <= i < n && outcomes[i] == Some(true) :: AudioFileName(Strip(words[i]))
  }

  lemma FilesAfterStep(existing: set<string>, words: seq<string>, outcomes: seq<Option<bool>>, n: nat)
    requires n < |words| && n < |outcomes|
    ensures FilesAfter(existing, words, outcomes, n + 1)
         == FilesAfter(existing, words, outcomes, n)
            + (if outcomes[n] == Some(true) then {AudioFileName(Strip(words[n]))} else {})
  {
  }

  lemma FilesAfterExtend(existing: set<string>, words: seq<string>, outcomes: seq<Option<bool>>, o: Option<bool>, n: nat)
    requires n <= |words| && n <= |outcomes|
    ensures FilesAfter(existing, words, outcomes + [o], n) == FilesAfter(existing, words, outcomes, n)
  {
    assert forall i :: 0 <= i < n ==> (outcomes + [o])[i] == outcomes[i];
  }

  /** `generate_and_save_audio` can produce audio for `word`: a word without `/`
      is synthesised, and a word with `/` has phrases that are all synthesised at
      the first phrase's sample rate. */
  predicate Generates(word: string, synth: Synth) {
    if '/' in word then
      var parts := PhraseParts(word);
      parts != [] && forall i :: 0 <= i < |parts| ==> Usable(parts, synth, i)
    else synth(word).Some?
  }

  /** One pass of the per-word loop of `process_csv` for a non-blank word: it
      succeeds exactly when the word's audio file is already present or the audio
      can be produced, and the file is present afterwards exactly on success. */
  method SaveWord(word: string, files: set<string>, synth: Synth) returns (ok: bool, files': set<string>)
    ensures ok <==> AudioFileName(word) in files || Generates(word, synth)
    ensures files' == if ok then files + {AudioFileName(word)} else files
  {
    var name := AudioFileName(word);
    var res, _ := GenerateAndSaveAudio(word, name in files, synth, PauseMs);
    ok := res.Succeeded();
    files' := if res.Saved? then files + {name} else files;
  }

  /** Outcome `i` fits word `i`: blank words are skipped, and any other word
      succeeds exactly when its audio file was present before its turn (already in
      the directory, or written for an earlier word with the same file name) or its
      audio can be produced. */
  predicate OutcomeFits(words: seq<string>, outcomes: seq<Option<bool>>, existing: set<string>, synth: Synth, i: nat)
    requires i < |words| && i < |outcomes|
  {
    && (outcomes[i].None? <==> Strip(words[i]) == [])
    && (outcomes[i].Some? ==>
          outcomes[i] == Some(AudioFileName(Strip(words[i])) in FilesAfter(existing, words, outcomes, i)
                              || Generates(Strip(words[i]), synth)))
  }

  /** Every outcome recorded so far fits its word. */
  predicate AllFit(words: seq<string>, outcomes: seq<Option<bool>>, existing: set<string>, synth: Synth)
    requires |outcomes| <= |words|
  {
    forall i :: 0 <= i < |outcomes| ==> OutcomeFits(words, outcomes, existing, synth, i)
  }

  /** Appending an outcome that fits its word keeps every outcome fitting, and adds
      its own success to the count. */
  lemma OutcomesExtend(words: seq<string>, outcomes: seq<Option<bool>>, existing: set<string>, synth: Synth, o: Option<bool>)
    requires |outcomes| < |words|
    requires AllFit(words, outcomes, existing, synth)
    requires OutcomeFits(words, outcomes + [o], existing, synth, |outcomes|)
    ensures AllFit(words, outcomes + [o], existing, synth)
    ensures CountSucceeded(outcomes + [o]) == CountSucceeded(outcomes) + (if o == Some(true) then 1 else 0)
  {
    var ext := outcomes + [o];
    assert ext[..|outcomes|] == outcomes;
    forall i | 0 <= i < |ext| ensures OutcomeFits(words, ext, existing, synth, i) {
      if i < |outcomes| {
        assert ext[i] == outcomes[i];
        FilesAfterExtend(existing, words, outcomes, o, i);
        assert OutcomeFits(words, outcomes, existing, synth, i);
      }
    }
  }

  /** The distinct words of the first two columns, sorted. */
  method CollectWords(rows: seq<Row>) returns (words: seq<string>)
    ensures StrictlySorted(words)
    ensures forall w :: w in words <==> w in ColumnValues(rows, 0) || w in ColumnValues(rows, 1)
  {
    var found: set<string> := {};
    found := found + ColumnValues(rows, 0);
    found := found + ColumnValues(rows, 1);
    words := SortStrings(found);
  }

  /** One iteration of the per-word loop of `process_csv`: strip the next word,
      skip it when blank, otherwise save its audio. */
  method WordStep(words: seq<string>, existing: set<string>, synth: Synth, outcomes: seq<Option<bool>>, files: set<string>)
    returns (outcome: Option<bool>, files': set<string>)
    requires |outcomes| < |words|
    requires files == FilesAfter(existing, words, outcomes, |outcomes|)
    ensures OutcomeFits(words, outcomes + [outcome], existing, synth, |outcomes|)
    ensures files' == FilesAfter(existing, words, outcomes + [outcome], |outcomes| + 1)
  {
    var idx := |outcomes|;
    var word := Strip(words[idx]);
    outcome := None;
    files' := files;
    if word != [] {
      var ok;
      ok, files' := SaveWord(word, files, synth);
      outcome := Some(ok);
    }
    FilesAfterExtend(existing, words, outcomes, outcome, idx);
    FilesAfterStep(existing, words, outcomes + [outcome], idx);
  }

  /** The per-word loop of `process_csv`: each word is stripped; a blank word is
      skipped, any other gets its audio file. Returns the number of successes, each
      word's outcome (`None` when skipped) and the files present afterwards. */
  method GenerateAll(words: seq<string>, existing: set<string>, synth: Synth)
    returns (successCount: nat, outcomes: seq<Option<bool>>, files: set<string>)
    ensures |outcomes| == |words|
    ensures forall i :: 0 <= i < |words| ==> OutcomeFits(words, outcomes, existing, synth, i)
    ensures successCount == CountSucceeded(outcomes) <= |words|
    ensures successCount == |words| ==> forall i :: 0 <= i < |words| ==> Strip(words[i]) != []
    ensures files == FilesAfter(existing, words, outcomes, |words|)
  {
    successCount := 0;
    outcomes := [];
    files := existing;
    var idx := 0;
    while idx < |words|
      invariant idx <= |words|
      invariant |outcomes| == idx
      invariant AllFit(words, outcomes, existing, synth)
      invariant successCount == CountSucceeded(outcomes)
      invariant files == FilesAfter(existing, words, outcomes, idx)
    {
      var outcome;
      outcome, files := WordStep(words, existing, synth, outcomes, files);
      OutcomesExtend(words, outcomes, existing, synth, outcome);
      if outcome == Some(true) {
        successCount := successCount + 1;
      }
      outcomes := outcomes + [outcome];
      idx := idx + 1;
    }
    assert AllFit(words, outcomes, existing, synth);
    if successCount == |words| {
      AllSucceeded(outcomes);
      forall i | 0 <= i < |words| ensures Strip(words[i]) != [] {
        assert OutcomeFits(words, outcomes, existing, synth, i);
      }
    }
  }

  /** `process_csv`: generate the audio for every distinct word of the first two
      columns, in sorted order. Returns `(success_count, total_count)` together with
      the word list, each word's outcome (`None` for a blank word, which is skipped)
      and the files of the output directory afterwards. */
  method ProcessCsv(csv: Csv, existing: set<string>, synth: Synth)
    returns (successCount: nat, totalCount: nat, words: seq<string>, outcomes: seq<Option<bool>>, files: set<string>)
    ensures !csv.Table? ==> successCount == 0 && totalCount == 0 && words == [] && outcomes == [] && files == existing
    ensures csv.Table? ==> StrictlySorted(words)
    ensures csv.Table? ==> forall w :: w in words <==> w in ColumnValues(csv.rows, 0) || w in ColumnValues(csv.rows, 1)
    ensures totalCount == |words| == |outcomes|
    ensures forall i :: 0 <= i < |words| ==> OutcomeFits(words, outcomes, existing, synth, i)
    ensures successCount == CountSucceeded(outcomes) <= totalCount
    ensures successCount == totalCount ==> forall i :: 0 <= i < |words| ==> Strip(words[i]) != []
    ensures files == FilesAfter(existing, words, outcomes, |words|)
  {
    if !csv.Table? {
      return 0, 0, [], [], existing;
    }
    words := CollectWords(csv.rows);
    totalCount := |words|;
    successCount, outcomes, files := GenerateAll(words, existing, synth);
  }
}
