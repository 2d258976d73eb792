/**
 * The verify screen's button handler: embed the captured face, download the
 * stored blob (at most 8192 bytes), unpack it, compare by cosine similarity,
 * and on a score of at least 0.5 call markPresentFirstSession; every exception is turned
 * into a status line, a missing object into "No enrolled face found".
 */
module VerifyFace {
  import opened Wrappers
  import opened Binary32
  import opened EmbeddingBlob
  import opened FaceEmbedder
  import EnrollFace

  const MaxDownloadBytes: int := 8192
  const Threshold: real := 0.5

  /** The message of the storage error for a path with no object. */
  const NotFoundMessage: string := "Object does not exist at location."
  /** The failure for a blob over the download limit (its text is this model's own). */
  const OversizeMessage: string := "download exceeds the maximum allowed size"
  /** What the handler looks for, ignoring case, to recognise a missing enrolment. */
  const NotFoundPhrase: string := "object does not exist"

  // ---------------------------------------------------------------------------
  // Download

  /** getBytes(maxBytes) on a path of the store. */
  function GetBytes(store: Store, key: string, maxBytes: int): (r: Result<seq<Byte>, Message>)
    ensures r.Ok? <==> key in store && |store[key]| <= maxBytes
    ensures r.Ok? ==> r.value == store[key]
    ensures key !in store ==> r == Err(Some(NotFoundMessage))
  {
    if key !in store then Err(Some(NotFoundMessage))
    else if |store[key]| > maxBytes then Err(Some(OversizeMessage))
    else Ok(store[key])
  }

  /** The download limit bounds the stored vector to 2048 floats. */
  lemma DownloadBoundsVector(store: Store, key: string)
    requires GetBytes(store, key, MaxDownloadBytes).Ok?
    ensures |Decode(GetBytes(store, key, MaxDownloadBytes).value)| <= MaxDownloadBytes / 4 == 2048
  {
  }

  // ---------------------------------------------------------------------------
  // contains(phrase, ignoreCase = true)

  /**
   * The fold Char.equals(ignoreCase = true) applies, onto ASCII: a character
   * whose uppercase, or the lowercase of that uppercase, is an ASCII letter
   * folds to that lowercase letter. Besides the ASCII capitals these are the
   * long s (U+017F, uppercase S), the dotless i (U+0131, uppercase I), the
   * dotted capital I (U+0130, lowercase i) and the Kelvin sign (U+212A,
   * lowercase k). Every other character folds to itself.
   */
  function Fold(c: char): (f: char)
    ensures 'A' <= c <= 'Z' ==> f == (c as int + 32) as char
    ensures f != c ==> 'a' <= f <= 'z'
  {
    if 'A' <= c <= 'Z' then (c as int + 32) as char
    else if c == '\U{017F}' then 's'
    else if c == '\U{0131}' || c == '\U{0130}' then 'i'
    else if c == '\U{212A}' then 'k'
    else c
  }

  /** Two characters equal ignoring case. */
  predicate SameIgnoringCase(a: char, b: char)
  {
    a == b || Fold(a) == Fold(b)
  }

  /**
   * Against an ASCII character b the fold agrees with Kotlin's rule: a
   * lowercase letter is matched by itself, its capital and the characters
   * listed at Fold; any other ASCII character other than a capital only by
   * itself.
   */
  lemma MatchesAsciiChar(a: char, b: char)
    requires b < '\U{0080}' && !('A' <= b <= 'Z')
    ensures SameIgnoringCase(a, b) <==>
      a == b ||
      ('a' <= b <= 'z' && a == (b as int - 32) as char) ||
      (b == 's' && a == '\U{017F}') ||
      (b == 'i' && (a == '\U{0131}' || a == '\U{0130}')) ||
      (b == 'k' && a == '\U{212A}')
  {
    if 'a' <= b <= 'z' && 'A' <= a <= 'Z' {
      assert Fold(a) == b <==> a == (b as int - 32) as char;
    }
  }

  predicate StartsWithIgnoringCase(s: string, prefix: string)
    decreases |prefix|
  {
    prefix == [] || (s != [] && SameIgnoringCase(s[0], prefix[0]) && StartsWithIgnoringCase(s[1..], prefix[1..]))
  }

  predicate ContainsIgnoringCase(s: string, needle: string)
    decreases |s|
  {
    StartsWithIgnoringCase(s, needle) || (s != [] && ContainsIgnoringCase(s[1..], needle))
  }

  /** regionMatches(offset, needle, ignoreCase = true): the reference definition. */
  ghost predicate RegionMatches(s: string, offset: int, needle: string)
  {
    0 <= offset && offset + |needle| <= |s| &&
    forall k :: 0 <= k < |needle| ==> SameIgnoringCase(s[offset + k], needle[k])
  }

  lemma {:induction false} StartsWithIff(s: string, prefix: string)
    ensures StartsWithIgnoringCase(s, prefix) <==> RegionMatches(s, 0, prefix)
    decreases |prefix|
  {
    if prefix != [] && s != [] {
      StartsWithIff(s[1..], prefix[1..]);
      if RegionMatches(s, 0, prefix) {
        assert RegionMatches(s[1..], 0, prefix[1..]) by {
          forall k | 0 <= k < |prefix| - 1 ensures SameIgnoringCase(s[1..][k], prefix[1..][k]) {
            assert SameIgnoringCase(s[k + 1], prefix[k + 1]);
          }
        }
      }
      if StartsWithIgnoringCase(s, prefix) {
        forall k | 0 <= k < |prefix| ensures SameIgnoringCase(s[k], prefix[k]) {
          if k > 0 {
            assert SameIgnoringCase(s[1..][k - 1], prefix[1..][k - 1]);
          }
        }
      }
    }
  }

  /** The needle occurs, ignoring case, exactly when it matches at some offset. */
  lemma {:induction false} ContainsIff(s: string, needle: string)
    ensures ContainsIgnoringCase(s, needle) <==> exists i :: RegionMatches(s, i, needle)
    decreases |s|
  {
    StartsWithIff(s, needle);
    if s != [] {
      ContainsIff(s[1..], needle);
      if i :| RegionMatches(s[1..], i, needle) {
        assert RegionMatches(s, i + 1, needle) by {
          forall k | 0 <= k < |needle| ensures SameIgnoringCase(s[i + 1 + k], needle[k]) {
            assert s[1..][i + k] == s[i + 1 + k];
          }
        }
      }
      if i :| RegionMatches(s, i, needle) {
        if i > 0 {
          assert RegionMatches(s[1..], i - 1, needle) by {
            forall k | 0 <= k < |needle| ensures SameIgnoringCase(s[1..][i - 1 + k], needle[k]) {
              assert s[1..][i - 1 + k] == s[i + k];
            }
          }
        }
      }
    } else {
      if i :| RegionMatches(s, i, needle) {
        assert i == 0;
      }
    }
  }

  // ---------------------------------------------------------------------------
  // Status lines

  /** The final status line the handler leaves. */
  datatype Status =
    | NotLoggedIn                 // "Not logged in."
    | ModelNotReady               // "Model not ready. Check model file path."
    | AttendanceRecorded          // "Attendance recorded"
    | NotRecognized               // "Face not recognized"
    | NoEnrolledFace              // "No enrolled face found. Please enroll first."
    | VerifyFailed(detail: string) // "Verify failed: <message>"

  /** The catch block: a message containing the not-found phrase means no enrolment, anything else a failure. */
  function Classify(m: Message): (s: Status)
    ensures s == NoEnrolledFace || s == VerifyFailed(Text(m))
    ensures m.None? ==> s == VerifyFailed("null")
  {
    if m.Some? && ContainsIgnoringCase(m.value, NotFoundPhrase) then NoEnrolledFace
    else VerifyFailed(Text(m))
  }

  /** Classification in terms of the reference definition, both ways. */
  lemma ClassifyIff(m: Message)
    ensures Classify(m) == NoEnrolledFace <==> m.Some? && exists i :: RegionMatches(m.value, i, NotFoundPhrase)
    ensures Classify(m) != NoEnrolledFace ==> Classify(m) == VerifyFailed(Text(m))
  {
    if m.Some? {
      ContainsIff(m.value, NotFoundPhrase);
    }
  }

  lemma {:induction false} StartsWithExactPrefix(s: string, prefix: string)
    requires prefix <= s
    ensures StartsWithIgnoringCase(s, prefix)
    decreases |prefix|
  {
    if prefix != [] {
      StartsWithExactPrefix(s[1..], prefix[1..]);
    }
  }

  lemma {:induction false} NotContainedInShorter(s: string, needle: string)
    requires |s| < |needle|
    ensures !ContainsIgnoringCase(s, needle)
    decreases |s|
  {
    StartsWithIff(s, needle);
    if s != [] {
      NotContainedInShorter(s[1..], needle);
    }
  }

  /** A message that opens with the not-found phrase, in any case, means no enrolment. */
  lemma LeadingPhraseRecognised(m: string)
    requires StartsWithIgnoringCase(m, NotFoundPhrase)
    ensures Classify(Some(m)) == NoEnrolledFace
  {
  }

  /** The storage error for a missing object is recognised as a missing enrolment. */
  lemma NotFoundMessageRecognised()
    ensures Classify(Some(NotFoundMessage)) == NoEnrolledFace
  {
    var m, p := NotFoundMessage, NotFoundPhrase;
    assert p[1..] <= m[1..];
    assert Fold(m[0]) == p[0];
    CapitalisedPrefix(m, p);
    LeadingPhraseRecognised(m);
  }

  /** A string that opens with the prefix, its first letter capitalised, starts with it ignoring case. */
  lemma CapitalisedPrefix(s: string, prefix: string)
    requires prefix != [] && s != [] && Fold(s[0]) == prefix[0] && prefix[1..] <= s[1..]
    ensures StartsWithIgnoringCase(s, prefix)
  {
    StartsWithExactPrefix(s[1..], prefix[1..]);
  }

  /** The size error of cosineSimilarity is a plain failure. */
  lemma SizeMismatchNotRecognised()
    ensures Classify(Some(SizeMismatchMessage)) == VerifyFailed(SizeMismatchMessage)
  {
    var m, p := SizeMismatchMessage, NotFoundPhrase;
    assert !SameIgnoringCase(m[0], p[0]);
    assert !SameIgnoringCase(m[1..][0], p[0]);
    assert !StartsWithIgnoringCase(m, p);
    assert !StartsWithIgnoringCase(m[1..], p);
    NotContainedInShorter(m[1..][1..], p);
    assert !ContainsIgnoringCase(m[1..], p);
  }

  /** A null message is a plain failure, rendered "null". */
  lemma NullMessageNotRecognised()
    ensures Classify(None) == VerifyFailed("null")
  {
  }

  // ---------------------------------------------------------------------------
  // Comparison

  /**
   * cosineSimilarity(live, stored) on the decoded floats: the size error when
   * the lengths differ; None (NaN) when a stored float is an infinity or a NaN.
   */
  function Score(live: seq<real>, stored: seq<Bits>, sqrt: real -> real): (r: Result<Option<real>, Message>)
    requires NonNegativeRoot(sqrt)
    ensures r.Err? <==> |live| != |stored|
    ensures r.Err? ==> r.error == Some(SizeMismatchMessage)
    ensures r.Ok? ==> (r.value.Some? <==> Values(stored).Some?)
    ensures r.Ok? && r.value.Some? ==> r.value.value == Cosine(live, Values(stored).value, sqrt)
  {
    if |live| != |stored| then Err(Some(SizeMismatchMessage))
    else
      match Values(stored)
      case None => Ok(None)
      case Some(s) => Ok(Some(Cosine(live, s, sqrt)))
  }

  /** pass = cos >= 0.5f: a NaN score never passes, and a score of exactly 0.5 does. */
  predicate Passes(score: Option<real>): (p: bool)
    ensures score.None? ==> !p
    ensures score.Some? ==> (p <==> score.value >= 0.5)
  {
    score.Some? && score.value >= Threshold
  }

  // ---------------------------------------------------------------------------
  // The handler

  /** The external actions a run takes, in order. */
  datatype Step = EmbedLive | ReadBlob(key: string) | Compare | MarkPresent

  /** The actions taken and the status left (None: the status line is not changed). */
  datatype Attempt = Attempt(steps: seq<Step>, status: Option<Status>)

  /**
   * What markPresentFirstSession did: set the present record, returned early
   * without writing (no signed-in user, no course, or a course without
   * sessions), or threw.
   */
  datatype MarkOutcome = Written | NothingToMark | MarkFailed(error: Message)

  /**
   * After a successful comparison: call markPresentFirstSession on a pass and
   * report "Attendance recorded" unless it threw; "not recognized" otherwise.
   */
  function Conclude(key: string, score: Option<real>, mark: MarkOutcome): (a: Attempt)
    ensures [EmbedLive, ReadBlob(key), Compare] <= a.steps <= [EmbedLive, ReadBlob(key), Compare, MarkPresent]
    ensures MarkPresent in a.steps <==> Passes(score)
    ensures a.status == Some(AttendanceRecorded) <==> Passes(score) && !mark.MarkFailed?
    ensures !Passes(score) ==> a.status == Some(NotRecognized)
    ensures Passes(score) && mark.MarkFailed? ==> a.status == Some(Classify(mark.error))
  {
    if !Passes(score) then Attempt([EmbedLive, ReadBlob(key), Compare], Some(NotRecognized))
    else
      var steps := [EmbedLive, ReadBlob(key), Compare, MarkPresent];
      match mark
      case MarkFailed(m) => Attempt(steps, Some(Classify(m)))
      case _ => Attempt(steps, Some(AttendanceRecorded))
  }

  /** After the live embedding: download, unpack, compare, conclude. */
  function Compared(key: string, liveVec: seq<real>, store: Store, mark: MarkOutcome,
                    sqrt: real -> real): (a: Attempt)
    requires NonNegativeRoot(sqrt)
    ensures [EmbedLive, ReadBlob(key)] <= a.steps <= [EmbedLive, ReadBlob(key), Compare, MarkPresent]
    ensures a.status.Some?
    ensures key !in store ==> a == Attempt([EmbedLive, ReadBlob(key)], Some(NoEnrolledFace))
    ensures |a.steps| > 2 <==> GetBytes(store, key, MaxDownloadBytes).Ok?
    ensures a.status == Some(AttendanceRecorded) ==> MarkPresent in a.steps && !mark.MarkFailed?
    ensures var r := GetBytes(store, key, MaxDownloadBytes);
      r.Err? ==> a == Attempt([EmbedLive, ReadBlob(key)], Some(Classify(r.error)))
    ensures var r := GetBytes(store, key, MaxDownloadBytes);
      r.Ok? && Score(liveVec, Decode(r.value), sqrt).Err? ==>
      a == Attempt([EmbedLive, ReadBlob(key), Compare], Some(Classify(Score(liveVec, Decode(r.value), sqrt).error)))
    ensures var r := GetBytes(store, key, MaxDownloadBytes);
      r.Ok? && Score(liveVec, Decode(r.value), sqrt).Ok? ==>
      a == Conclude(key, Score(liveVec, Decode(r.value), sqrt).value, mark)
  {
    NotFoundMessageRecognised();
    match GetBytes(store, key, MaxDownloadBytes)
    case Err(m) => Attempt([EmbedLive, ReadBlob(key)], Some(Classify(m)))
    case Ok(bytes) =>
      match Score(liveVec, Decode(bytes), sqrt)
      case Err(m) => Attempt([EmbedLive, ReadBlob(key), Compare], Some(Classify(m)))
      case Ok(score) => Conclude(key, score, mark)
  }

  /**
   * live is what embedder.embed(faceBmp) returned, or what it threw;
   * store is the storage bucket; mark is what the call to
   * markPresentFirstSession did.
   */
  function VerifyAttempt(uid: Option<string>, hasPreview: bool, embedderLoaded: bool,
                         live: Result<seq<real>, Message>, store: Store, mark: MarkOutcome,
                         sqrt: real -> real): (a: Attempt)
    requires NonNegativeRoot(sqrt)
    ensures uid.None? ==> a == Attempt([], Some(NotLoggedIn))
    ensures uid.Some? ==>
      a.steps <= [EmbedLive, ReadBlob(StorageKey(uid.value)), Compare, MarkPresent]
    ensures uid.Some? && !hasPreview ==> a == Attempt([], None)
    ensures uid.Some? && hasPreview && !embedderLoaded ==> a == Attempt([], Some(ModelNotReady))
    ensures uid.Some? && hasPreview && embedderLoaded && live.Err? ==>
      a == Attempt([EmbedLive], Some(Classify(live.error)))
    ensures uid.Some? && hasPreview && embedderLoaded && live.Ok? ==>
      var key := StorageKey(uid.value);
      var r := GetBytes(store, key, MaxDownloadBytes);
      r.Err? ==> a == Attempt([EmbedLive, ReadBlob(key)], Some(Classify(r.error)))
    ensures a.status == Some(AttendanceRecorded) ==> MarkPresent in a.steps && !mark.MarkFailed?
  {
    if uid.None? then Attempt([], Some(NotLoggedIn))
    else if !hasPreview then Attempt([], None)
    else if !embedderLoaded then Attempt([], Some(ModelNotReady))
    else
      match live
      case Err(m) => Attempt([EmbedLive], Some(Classify(m)))
      case Ok(liveVec) => Compared(StorageKey(uid.value), liveVec, store, mark, sqrt)
  }

  /** That the run got as far as scoring, and the score it got. */
  predicate ScoredAs(uid: Option<string>, hasPreview: bool, embedderLoaded: bool,
                     live: Result<seq<real>, Message>, store: Store, sqrt: real -> real, score: Option<real>)
    requires NonNegativeRoot(sqrt)
  {
    uid.Some? && hasPreview && embedderLoaded && live.Ok? &&
    var r := GetBytes(store, StorageKey(uid.value), MaxDownloadBytes);
    r.Ok? && Score(live.value, Decode(r.value), sqrt) == Ok(score)
  }

  /**
   * markPresentFirstSession is called exactly when the run scored and the
   * score passed; "Attendance recorded" is the status exactly when, in
   * addition, that call did not throw.
   */
  lemma MarkedOnlyOnMatch(uid: Option<string>, hasPreview: bool, embedderLoaded: bool,
                         live: Result<seq<real>, Message>, store: Store, mark: MarkOutcome,
                         sqrt: real -> real)
    requires NonNegativeRoot(sqrt)
    ensures var a := VerifyAttempt(uid, hasPreview, embedderLoaded, live, store, mark, sqrt);
      MarkPresent in a.steps <==>
      exists score :: ScoredAs(uid, hasPreview, embedderLoaded, live, store, sqrt, score) && Passes(score)
    ensures var a := VerifyAttempt(uid, hasPreview, embedderLoaded, live, store, mark, sqrt);
      a.status == Some(AttendanceRecorded) <==>
      (exists score :: ScoredAs(uid, hasPreview, embedderLoaded, live, store, sqrt, score) && Passes(score)) &&
      !mark.MarkFailed?
  {
    if uid.Some? && hasPreview && embedderLoaded && live.Ok? {
      var r := GetBytes(store, StorageKey(uid.value), MaxDownloadBytes);
      if r.Ok? {
        var sc := Score(live.value, Decode(r.value), sqrt);
        if sc.Ok? {
          assert ScoredAs(uid, hasPreview, embedderLoaded, live, store, sqrt, sc.value);
        }
      }
    }
  }

  /**
   * When markPresentFirstSession returns early without writing, a passing run
   * still reports "Attendance recorded".
   */
  lemma RecordedWithoutWrite(uid: Option<string>, hasPreview: bool, embedderLoaded: bool,
                             live: Result<seq<real>, Message>, store: Store, sqrt: real -> real,
                             score: Option<real>)
    requires NonNegativeRoot(sqrt)
    requires ScoredAs(uid, hasPreview, embedderLoaded, live, store, sqrt, score) && Passes(score)
    ensures var a := VerifyAttempt(uid, hasPreview, embedderLoaded, live, store, NothingToMark, sqrt);
      a.status == Some(AttendanceRecorded)
  {
  }

  /** A score below the threshold (or a NaN) calls no markPresentFirstSession and reports "not recognized". */
  lemma NoMatchNoMark(uid: Option<string>, hasPreview: bool, embedderLoaded: bool,
                       live: Result<seq<real>, Message>, store: Store, mark: MarkOutcome,
                       sqrt: real -> real, score: Option<real>)
    requires NonNegativeRoot(sqrt)
    requires ScoredAs(uid, hasPreview, embedderLoaded, live, store, sqrt, score)
    requires !Passes(score)
    ensures var a := VerifyAttempt(uid, hasPreview, embedderLoaded, live, store, mark, sqrt);
      MarkPresent !in a.steps && a.status == Some(NotRecognized)
  {
  }

  /**
   * Once scored, markPresentFirstSession is called exactly when cos >= 0.5: a
   * score of exactly 0.5 is a match.
   */
  lemma ThresholdDecides(uid: Option<string>, hasPreview: bool, embedderLoaded: bool,
                         live: Result<seq<real>, Message>, store: Store, mark: MarkOutcome,
                         sqrt: real -> real, score: Option<real>)
    requires NonNegativeRoot(sqrt)
    requires ScoredAs(uid, hasPreview, embedderLoaded, live, store, sqrt, score)
    ensures var a := VerifyAttempt(uid, hasPreview, embedderLoaded, live, store, mark, sqrt);
      MarkPresent in a.steps <==> score.Some? && score.value >= 0.5
    ensures var a := VerifyAttempt(uid, hasPreview, embedderLoaded, live, store, mark, sqrt);
      score == Some(0.5) ==> MarkPresent in a.steps
  {
  }

  /** A stored vector of another length than the live one ends in "Verify failed", never a match. */
  lemma SizeMismatchFails(uid: Option<string>, hasPreview: bool, embedderLoaded: bool,
                          live: Result<seq<real>, Message>, store: Store, mark: MarkOutcome,
                          sqrt: real -> real)
    requires NonNegativeRoot(sqrt)
    requires uid.Some? && hasPreview && embedderLoaded && live.Ok?
    requires var key := StorageKey(uid.value);
      key in store && |store[key]| <= MaxDownloadBytes && |Decode(store[key])| != |live.value|
    ensures var a := VerifyAttempt(uid, hasPreview, embedderLoaded, live, store, mark, sqrt);
      MarkPresent !in a.steps && a.status == Some(VerifyFailed(SizeMismatchMessage))
  {
    var key := StorageKey(uid.value);
    assert GetBytes(store, key, MaxDownloadBytes) == Ok(store[key]);
    assert Score(live.value, Decode(store[key]), sqrt) == Err(Some(SizeMismatchMessage));
    SizeMismatchNotRecognised();
    assert Compared(key, live.value, store, mark, sqrt) ==
      Attempt([EmbedLive, ReadBlob(key), Compare], Some(VerifyFailed(SizeMismatchMessage)));
  }

  /** With nothing stored at the user's path the run ends in "No enrolled face found", without comparing. */
  lemma MissingEnrolment(uid: Option<string>, hasPreview: bool, embedderLoaded: bool,
                         live: Result<seq<real>, Message>, store: Store, mark: MarkOutcome,
                         sqrt: real -> real)
    requires NonNegativeRoot(sqrt)
    requires uid.Some? && hasPreview && embedderLoaded && live.Ok?
    requires StorageKey(uid.value) !in store
    ensures var a := VerifyAttempt(uid, hasPreview, embedderLoaded, live, store, mark, sqrt);
      a.steps == [EmbedLive, ReadBlob(StorageKey(uid.value))] && a.status == Some(NoEnrolledFace)
  {
    NotFoundMessageRecognised();
  }

  /** Without a user, or without a loaded model, nothing is embedded, read or compared. */
  lemma NoUserOrModelNoWork(uid: Option<string>, hasPreview: bool, embedderLoaded: bool,
                            live: Result<seq<real>, Message>, store: Store, mark: MarkOutcome,
                            sqrt: real -> real)
    requires NonNegativeRoot(sqrt)
    requires uid.None? || !embedderLoaded
    ensures var a := VerifyAttempt(uid, hasPreview, embedderLoaded, live, store, mark, sqrt);
      a.steps == [] &&
      (uid.None? ==> a.status == Some(NotLoggedIn)) &&
      (uid.Some? && hasPreview ==> a.status == Some(ModelNotReady))
  {
  }

  // ---------------------------------------------------------------------------
  // Enrolment and verification together

  /**
   * What a successful enrolment put is what verification reads back: for at
   * most 2048 floats the download returns the blob and unpacks to the
   * enrolled patterns; a longer vector is over the download limit.
   */
  lemma VerifyReadsWhatEnrolWrote(store: Store, uid: string, emb: seq<Bits>)
    ensures var o := EnrollFace.SaveEmbedding(Some(uid), true, Ok(emb), None);
      var r := GetBytes(EnrollFace.StoreAfter(store, o), StorageKey(uid), MaxDownloadBytes);
      (|emb| <= 2048 ==> r.Ok? && Decode(r.value) == emb) &&
      (|emb| > 2048 ==> r == Err(Some(OversizeMessage)))
  {
    DecodeEncode(emb);
  }

  // ---------------------------------------------------------------------------
  // Scenarios

  /** The run for a user whose blob is the encoding of words, up to the score. */
  lemma ComparedStored(uid: string, words: seq<Bits>, live: seq<real>, mark: MarkOutcome,
                       sqrt: real -> real, score: Option<real>)
    requires NonNegativeRoot(sqrt)
    requires |words| <= 2048
    requires Score(live, words, sqrt) == Ok(score)
    ensures var store := map[StorageKey(uid) := Encode(words)];
      VerifyAttempt(Some(uid), true, true, Ok(live), store, mark, sqrt) ==
      Conclude(StorageKey(uid), score, mark)
  {
    var key := StorageKey(uid);
    var store := map[key := Encode(words)];
    assert GetBytes(store, key, MaxDownloadBytes) == Ok(Encode(words));
    DecodeEncode(words);
  }

  /** [1, 0, 0] and [0, 1, 0] stored as 1.0f and 0.0f patterns. */
  lemma UnitWordsValues()
    ensures Values([0x3F80_0000, 0, 0]) == Some([1.0, 0.0, 0.0])
    ensures Values([0, 0x3F80_0000, 0]) == Some([0.0, 1.0, 0.0])
  {
    ValueOfOne();
    ValueOfZerosAndNaN();
    var w1: seq<Bits> := [0x3F80_0000, 0, 0];
    var v1 := [1.0, 0.0, 0.0];
    assert Value(w1[0]) == Some(v1[0]) && Value(w1[1]) == Some(v1[1]) && Value(w1[2]) == Some(v1[2]);
    ValuesOf(w1, v1);
    var w2: seq<Bits> := [0, 0x3F80_0000, 0];
    var v2 := [0.0, 1.0, 0.0];
    assert Value(w2[0]) == Some(v2[0]) && Value(w2[1]) == Some(v2[1]) && Value(w2[2]) == Some(v2[2]);
    ValuesOf(w2, v2);
  }

  lemma UnitVectorSums()
    ensures SumSquares([1.0, 0.0, 0.0]) == 1.0
    ensures Dot([1.0, 0.0, 0.0], [0.0, 1.0, 0.0]) == 0.0
  {
    var a, b := [1.0, 0.0, 0.0], [0.0, 1.0, 0.0];
    assert a[..2] == [1.0, 0.0] && a[..2][..1] == [1.0] && a[..2][..1][..0] == [];
    assert b[..2] == [0.0, 1.0] && b[..2][..1] == [0.0] && b[..2][..1][..0] == [];
    assert Dot(a[..1], a[..1]) == 1.0;
    assert Dot(a[..2], a[..2]) == 1.0;
    assert Dot(a[..1], b[..1]) == 0.0;
    assert Dot(a[..2], b[..2]) == 0.0;
  }

  /** Cosine of [1, 0, 0] with itself is 1 / (1 + 1e-10). */
  lemma SameUnitScore(sqrt: real -> real)
    requires IsSquareRoot(sqrt)
    ensures Score([1.0, 0.0, 0.0], [0x3F80_0000, 0, 0], sqrt) == Ok(Some(1.0 / (1.0 + Eps)))
  {
    var v := [1.0, 0.0, 0.0];
    var w: seq<Bits> := [0x3F80_0000, 0, 0];
    UnitWordsValues();
    assert Values(w) == Some(v);
    assert Score(v, w, sqrt) == Ok(Some(Cosine(v, v, sqrt)));
    UnitVectorSums();
    CosineWithItself(v, sqrt);
  }

  /** Cosine of [1, 0, 0] with [0, 1, 0] is 0. */
  lemma OrthogonalScore(sqrt: real -> real)
    requires NonNegativeRoot(sqrt)
    ensures Score([1.0, 0.0, 0.0], [0, 0x3F80_0000, 0], sqrt) == Ok(Some(0.0))
  {
    var a, b := [1.0, 0.0, 0.0], [0.0, 1.0, 0.0];
    var w: seq<Bits> := [0, 0x3F80_0000, 0];
    UnitWordsValues();
    assert Values(w) == Some(b);
    assert Score(a, w, sqrt) == Ok(Some(Cosine(a, b, sqrt)));
    UnitVectorSums();
    assert Cosine(a, b, sqrt) == 0.0;
  }

  /** Identical unit vectors [1, 0, 0] score 1 / (1 + 1e-10): a match, and attendance is recorded. */
  lemma SameUnitVectorMatches(uid: string, sqrt: real -> real)
    requires IsSquareRoot(sqrt)
    ensures var store := map[StorageKey(uid) := Encode([0x3F80_0000, 0, 0])];
      VerifyAttempt(Some(uid), true, true, Ok([1.0, 0.0, 0.0]), store, Written, sqrt) ==
      Attempt([EmbedLive, ReadBlob(StorageKey(uid)), Compare, MarkPresent], Some(AttendanceRecorded))
  {
    SameUnitScore(sqrt);
    ComparedStored(uid, [0x3F80_0000, 0, 0], [1.0, 0.0, 0.0], Written, sqrt, Some(1.0 / (1.0 + Eps)));
    assert Passes(Some(1.0 / (1.0 + Eps)));
  }

  /** Orthogonal unit vectors [1, 0, 0] and [0, 1, 0] score 0: no match, no markPresentFirstSession call. */
  lemma OrthogonalVectorsDoNotMatch(uid: string, sqrt: real -> real)
    requires NonNegativeRoot(sqrt)
    ensures var store := map[StorageKey(uid) := Encode([0, 0x3F80_0000, 0])];
      VerifyAttempt(Some(uid), true, true, Ok([1.0, 0.0, 0.0]), store, Written, sqrt) ==
      Attempt([EmbedLive, ReadBlob(StorageKey(uid)), Compare], Some(NotRecognized))
  {
    OrthogonalScore(sqrt);
    ComparedStored(uid, [0, 0x3F80_0000, 0], [1.0, 0.0, 0.0], Written, sqrt, Some(0.0));
  }
}
