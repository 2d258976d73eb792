/**
 * The enrol screen's save handler: with a signed-in user and a cropped face,
 * embed it, pack the floats little-endian and put the bytes at the user's
 * storage path.
 */
module EnrollFace {
  import opened Wrappers
  import opened Binary32
  import opened EmbeddingBlob

  /** The final status line the handler leaves. */
  datatype EnrollStatus =
    | NotLoggedIn
    | ModelError(detail: string)   // "Model missing or error: <message>"
    | Enrolled                     // "Enrolled & uploaded"
    | UploadFailed(detail: string) // "Upload failed: <message>"

  /** A putBytes call: the path and the bytes. */
  datatype Upload = Upload(key: string, blob: seq<Byte>)

  /** The upload the handler issues, if any, and the status it leaves (None: unchanged). */
  datatype EnrollOutcome = EnrollOutcome(upload: Option<Upload>, status: Option<EnrollStatus>)

  /**
   * The save handler. embedding is what FaceEmbedder(ctx).embed(faceBmp)
   * produced, as the floats' bit patterns, or the message of what it threw;
   * uploadError is what the putBytes task's failure listener received, if it failed.
   */
  function SaveEmbedding(uid: Option<string>, hasCrop: bool, embedding: Result<seq<Bits>, Message>,
                         uploadError: Option<Message>): (o: EnrollOutcome)
    ensures o.upload.Some? <==> uid.Some? && hasCrop && embedding.Ok?
    ensures o.upload.Some? ==>
      o.upload.value.key == StorageKey(uid.value) &&
      |o.upload.value.blob| == 4 * |embedding.value| &&
      Decode(o.upload.value.blob) == embedding.value
    ensures o.status == Some(Enrolled) ==> o.upload.Some? && uploadError.None?
    ensures uid.None? ==> o.status == Some(NotLoggedIn)
    ensures uid.Some? && !hasCrop ==> o == EnrollOutcome(None, None)
    ensures uid.Some? && hasCrop && embedding.Err? ==> o.status == Some(ModelError(Text(embedding.error)))
    ensures uid.Some? && hasCrop && embedding.Ok? ==>
      o.status == Some(if uploadError.None? then Enrolled else UploadFailed(Text(uploadError.value)))
  {
    if uid.None? then EnrollOutcome(None, Some(NotLoggedIn))
    else if !hasCrop then EnrollOutcome(None, None)
    else
      match embedding
      case Err(m) => EnrollOutcome(None, Some(ModelError(Text(m))))
      case Ok(emb) =>
        DecodeEncode(emb);
        var status := if uploadError.Some? then UploadFailed(Text(uploadError.value)) else Enrolled;
        EnrollOutcome(Some(Upload(StorageKey(uid.value), Encode(emb))), Some(status))
  }

  /** The store after the handler: a successful put overwrites the user's blob; nothing else changes. */
  function StoreAfter(store: Store, o: EnrollOutcome): (s: Store)
    ensures o.status == Some(Enrolled) && o.upload.Some? ==>
      s.Keys == store.Keys + {o.upload.value.key} &&
      s[o.upload.value.key] == o.upload.value.blob &&
      forall k :: k in store && k != o.upload.value.key ==> s[k] == store[k]
    ensures !(o.status == Some(Enrolled) && o.upload.Some?) ==> s == store
  {
    if o.status == Some(Enrolled) && o.upload.Some? then store[o.upload.value.key := o.upload.value.blob]
    else store
  }
}
