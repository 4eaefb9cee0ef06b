/**
 * The per-session fields the note page keeps between reruns and the rules
 * that reset them: a new recording clears the transcript and the note,
 * saving clears everything.
 */
module Session {
  import opened Wrappers
  import opened Notes
  import opened Store
  import Transcript

  /** Raw audio as recorded and exported to MP3. */
  type Bytes = seq<bv8>

  /** A hex digest of the audio bytes. */
  type Digest = string

  /**
   * `st.session_state` for the note page. `audioText` is `None` while the
   * key `note_audio_text` has never been set: unlike the other three it is
   * not initialised when the session starts.
   */
  class NoteSession {
    var audioBytes: Option<Bytes>
    var audioMd5: Option<Digest>
    var audioText: Option<string>
    var noteText: string

    /** Once a recording has been fingerprinted, a transcript value exists to be read. */
    ghost predicate Valid()
      reads this
    {
      audioMd5.Some? ==> audioText.Some?
    }

    /** The first run of the page: the fields that are initialised, and no transcript key. */
    constructor ()
      ensures Valid()
      ensures audioMd5 == None && audioBytes == None && noteText == "" && audioText == None
    {
      audioMd5 := None;
      audioBytes := None;
      noteText := "";
      audioText := None;
    }

    /**
     * A recording is present: keep its bytes and fingerprint them with
     * `md5`. A fingerprint that differs from the stored one clears the
     * transcript and the note and is stored; the same fingerprint keeps both.
     */
    method OnRecording(bytes: Bytes, md5: Bytes -> Digest)
      requires Valid()
      modifies this
      ensures Valid()
      ensures audioBytes == Some(bytes) && audioMd5 == Some(md5(bytes))
      ensures old(audioMd5) != Some(md5(bytes)) ==> audioText == Some("") && noteText == ""
      ensures old(audioMd5) == Some(md5(bytes)) ==>
        audioText == old(audioText) && noteText == old(noteText)
    {
      audioBytes := Some(bytes);
      var current := md5(bytes);
      if audioMd5 != Some(current) {
        audioText := Some("");
        noteText := "";
        audioMd5 := Some(current);
      }
    }

    /** The transcription button: the transcript becomes whatever `transcribe_audio` returns. */
    method Transcribe(response: Transcript.Response)
      requires Valid()
      modifies this`audioText
      ensures Valid()
      ensures audioText == Some(Transcript.ExtractText(response))
    {
      audioText := Some(Transcript.ExtractText(response));
    }

    /**
     * The edit box is shown only for a non-empty transcript; what it holds
     * becomes the note text. Reached only after a recording was fingerprinted.
     */
    method Edit(edited: string)
      requires Valid() && audioMd5.Some?
      modifies this`noteText
      ensures Valid()
      ensures old(audioText).value != "" ==> noteText == edited
      ensures old(audioText).value == "" ==> noteText == old(noteText)
    {
      if audioText.value != "" {
        noteText := edited;
      }
    }

    /**
     * The save button, shown only for a non-empty note: the note is added
     * to the store and, once that succeeded, all four fields are cleared.
     * When adding fails the session is left as it was.
     */
    method Save(store: NoteStore, seconds: real, embedding: Option<Embedding>) returns (saved: Option<Result<int, StoreError>>)
      requires Valid()
      modifies this, store`points
      ensures Valid()
      ensures store.collectionExists == old(store.collectionExists)
      ensures old(noteText) == "" ==>
        saved == None && store.points == old(store.points) &&
        noteText == old(noteText) && audioText == old(audioText) &&
        audioBytes == old(audioBytes) && audioMd5 == old(audioMd5)
      ensures old(noteText) != "" ==> saved.Some?
      ensures old(noteText) != "" && embedding.None? ==> saved == Some(Failure(EmbeddingFailure))
      ensures old(noteText) != "" && embedding.Some? && MillisTimestamp(seconds) < 0 ==>
        saved == Some(Failure(InvalidId))
      ensures old(noteText) != "" && embedding.Some? && MillisTimestamp(seconds) >= 0 && !store.collectionExists ==>
        saved == Some(Failure(CollectionMissing))
      ensures old(noteText) != "" && embedding.Some? && MillisTimestamp(seconds) >= 0 && store.collectionExists ==>
        saved == Some(Success(MillisTimestamp(seconds)))
      ensures saved.Some? && saved.value.Success? ==>
        && embedding.Some? && saved.value.value == MillisTimestamp(seconds)
        && store.points == Upsert(old(store.points), saved.value.value,
                                  NotePoint(old(noteText), saved.value.value, embedding.value))
        && noteText == "" && audioText == Some("") && audioBytes == None && audioMd5 == None
      ensures saved.Some? && saved.value.Failure? ==>
        store.points == old(store.points) &&
        noteText == old(noteText) && audioText == old(audioText) &&
        audioBytes == old(audioBytes) && audioMd5 == old(audioMd5)
    {
      if noteText == "" {
        return None;
      }
      var r := store.AddNote(noteText, seconds, embedding);
      saved := Some(r);
      if r.Success? {
        noteText := "";
        audioText := Some("");
        audioBytes := None;
        audioMd5 := None;
      }
    }
  }
}
