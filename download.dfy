/**
 * The existing-file guard and the chunk loop of `download_file` in
 * scrape-archive_download.py.
 *
 * The HTTP exchange is an input: either the request fails outright, or it
 * answers with a status, a Content-Length header and the sequence of chunks
 * the body streams as, possibly followed by a transport error. The target
 * file is a `LocalFile` object whose contents the loop appends to.
 * Progress, speed and timing output are not modelled; only whether the
 * elapsed time was ever assigned matters, because the final report reads
 * `elapsed_time`.
 */
module Download {
  import opened Wrappers

  type Byte = b: int | 0 <= b < 256
  type Chunk = seq<Byte>

  /** The `Content-Length` header: missing, not an integer, or an integer. */
  datatype LengthHeader = Absent | Malformed | Declared(n: int)

  /** What `requests.get(url, stream=True, timeout=10)` and its `iter_content` deliver. */
  datatype Response =
    | ConnectFailed      // `requests.get` raises a `RequestException`
    | Answer(status: int, length: LengthHeader, body: seq<Chunk>, broken: bool)
      // `broken`: the stream raises a `RequestException` after delivering `body`

  /** The exception that reaches the generic `except Exception` handler. */
  datatype Cause =
    | BadContentLength   // `int(...)` of the header raises `ValueError`
    | ZeroDivision       // `downloaded / total_size` with `total_size == 0`
    | ElapsedUnbound     // no chunk was written, so `elapsed_time` is unassigned at the final report

  /** How one call of `download_file` ends. */
  datatype Outcome =
    | AlreadyExists      // the target exists: nothing is requested or written
    | RequestFailed      // the `except requests.RequestException` handler
    | BadStatus(status: int)
    | Unexpected(cause: Cause)
    | Completed          // "Download complete"

  /** The target path on disk: whether it exists and, if so, its bytes. */
  class LocalFile {
    var present: bool
    var data: seq<Byte>

    /** `open(file_path, "wb")`: creates the file, or truncates it. */
    method OpenForWrite()
      modifies this
      ensures present && data == []
    {
      present := true;
      data := [];
    }

    /** `file.write(chunk)`. */
    method Write(chunk: Chunk)
      modifies this
      ensures present == old(present) && data == old(data) + chunk
    {
      data := data + chunk;
    }
  }

  // ---------------------------------------------------------------------
  // Specification of what the loop writes

  /** The chunks that pass the `if chunk:` test, in order. */
  function NonEmpty(cs: seq<Chunk>): (r: seq<Chunk>)
    ensures |r| <= |cs|
    ensures forall k :: 0 <= k < |r| ==> r[k] != []
  {
    if cs == [] then []
    else NonEmpty(cs[..|cs| - 1]) + (if cs[|cs| - 1] == [] then [] else [cs[|cs| - 1]])
  }

  /** The bytes of a sequence of chunks, one after the other. */
  function Concat(cs: seq<Chunk>): seq<Byte> {
    if cs == [] then [] else Concat(cs[..|cs| - 1]) + cs[|cs| - 1]
  }

  /** `int(response.headers.get('Content-Length', 0))`; `None` when it raises. */
  function DeclaredSize(h: LengthHeader): Option<int> {
    match h
    case Absent => Some(0)
    case Malformed => None
    case Declared(n) => Some(n)
  }

  /** The first non-empty chunk, if there is one. */
  function FirstNonEmpty(cs: seq<Chunk>): seq<Chunk> {
    var ne := NonEmpty(cs);
    if ne == [] then [] else [ne[0]]
  }

  /**
   * The chunks that reach the file: every non-empty chunk, except that a
   * zero total makes the progress division raise right after the first one.
   */
  function Written(total: int, body: seq<Chunk>): seq<Chunk> {
    if total == 0 then FirstNonEmpty(body) else NonEmpty(body)
  }

  /** Whether the call gets as far as `open(file_path, "wb")`. */
  predicate Opens(existed: bool, response: Response) {
    !existed && response.Answer? && response.status == 200 && DeclaredSize(response.length).Some?
  }

  /** The handler, or the normal end, that a call reaches. */
  function DownloadOutcome(existed: bool, response: Response): Outcome {
    if existed then AlreadyExists
    else
      match response
      case ConnectFailed => RequestFailed
      case Answer(status, length, body, broken) =>
        if status != 200 then BadStatus(status)
        else
          match DeclaredSize(length)
          case None => Unexpected(BadContentLength)
          case Some(total) =>
            if total == 0 && NonEmpty(body) != [] then Unexpected(ZeroDivision)
            else if broken then RequestFailed
            else if NonEmpty(body) == [] then Unexpected(ElapsedUnbound)
            else Completed
  }

  /**
   * A missing Content-Length is read as 0, so it behaves exactly like a
   * declared length of 0; only a header that is not an integer stops the
   * call before the file is opened.
   */
  lemma MissingLengthIsZero(existed: bool, body: seq<Chunk>, broken: bool)
    ensures DownloadOutcome(existed, Answer(200, Absent, body, broken))
            == DownloadOutcome(existed, Answer(200, Declared(0), body, broken))
    ensures Opens(existed, Answer(200, Absent, body, broken)) == Opens(existed, Answer(200, Declared(0), body, broken))
    ensures forall h :: Opens(false, Answer(200, h, body, broken)) <==> !h.Malformed?
  {
    forall h: LengthHeader
      ensures Opens(false, Answer(200, h, body, broken)) <==> !h.Malformed?
    {
      assert DeclaredSize(h).None? <==> h.Malformed?;
    }
  }

  // ---------------------------------------------------------------------
  // Lemmas the loop needs

  lemma {:induction false} NonEmptyAppend(a: seq<Chunk>, b: seq<Chunk>)
    ensures NonEmpty(a + b) == NonEmpty(a) + NonEmpty(b)
  {
    if b == [] {
      assert a + b == a;
    } else {
      assert (a + b)[..|a + b| - 1] == a + b[..|b| - 1];
      NonEmptyAppend(a, b[..|b| - 1]);
    }
  }

  lemma ConcatSnoc(cs: seq<Chunk>, c: Chunk)
    ensures Concat(cs + [c]) == Concat(cs) + c
  {
    assert (cs + [c])[..|cs|] == cs;
  }

  lemma {:induction false} ConcatAppend(a: seq<Chunk>, b: seq<Chunk>)
    ensures Concat(a + b) == Concat(a) + Concat(b)
  {
    if b == [] {
      assert a + b == a;
    } else {
      var b', c := b[..|b| - 1], b[|b| - 1];
      assert b == b' + [c];
      assert a + b == (a + b') + [c];
      ConcatAppend(a, b');
      ConcatSnoc(a + b', c);
      ConcatSnoc(b', c);
    }
  }

  lemma ConcatSingle(c: Chunk)
    ensures Concat([c]) == c
  {
    var one: seq<Chunk> := [c];
    assert one[..0] == [];
  }

  lemma NonEmptyStep(body: seq<Chunk>, i: nat)
    requires i < |body|
    ensures NonEmpty(body[..i + 1]) == NonEmpty(body[..i]) + (if body[i] == [] then [] else [body[i]])
    ensures Concat(NonEmpty(body[..i + 1])) == Concat(NonEmpty(body[..i])) + body[i]
  {
    assert body[..i + 1][..i] == body[..i];
    var extra: seq<Chunk> := if body[i] == [] then [] else [body[i]];
    ConcatAppend(NonEmpty(body[..i]), extra);
    if body[i] == [] {
      assert Concat(extra) == [];
    } else {
      ConcatSingle(body[i]);
    }
  }

  /** When the first non-empty chunk is `body[i]`, it is the one `FirstNonEmpty` picks. */
  lemma FirstChunkFound(body: seq<Chunk>, i: nat)
    requires i < |body| && body[i] != [] && NonEmpty(body[..i]) == []
    ensures FirstNonEmpty(body) == [body[i]] == NonEmpty(body[..i + 1])
  {
    NonEmptyStep(body, i);
    assert body == body[..i + 1] + body[i + 1..];
    NonEmptyAppend(body[..i + 1], body[i + 1..]);
  }

  /**
   * `download_file(url, name, download_dir)` from the existence check to the
   * exception handlers. The outcome is the one `DownloadOutcome` names; a
   * call that opens the file leaves in it exactly the `Written` chunks and
   * reports their total length as `downloaded`; any other call changes
   * nothing on disk.
   */
  method DownloadFile(file: LocalFile, response: Response) returns (outcome: Outcome, downloaded: nat)
    modifies file
    ensures outcome == DownloadOutcome(old(file.present), response)
    ensures Opens(old(file.present), response) ==>
      var total := DeclaredSize(response.length).value;
      file.present && file.data == Concat(Written(total, response.body)) && downloaded == |file.data|
    ensures !Opens(old(file.present), response) ==>
      file.present == old(file.present) && file.data == old(file.data) && downloaded == 0
  {
    downloaded := 0;
    if file.present {
      return AlreadyExists, 0;
    }
    if response.ConnectFailed? {
      return RequestFailed, 0;
    }
    if response.status != 200 {
      return BadStatus(response.status), 0;
    }
    if response.length.Malformed? {
      return Unexpected(BadContentLength), 0;
    }
    var total := DeclaredSize(response.length).value;
    var body := response.body;
    var elapsedSet := false;
    file.OpenForWrite();
    for i := 0 to |body|
      invariant file.present
      invariant file.data == Concat(NonEmpty(body[..i]))
      invariant downloaded == |file.data|
      invariant elapsedSet <==> NonEmpty(body[..i]) != []
      invariant total == 0 ==> NonEmpty(body[..i]) == []
    {
      NonEmptyStep(body, i);
      var chunk := body[i];
      if chunk != [] {
        file.Write(chunk);
        downloaded := downloaded + |chunk|;
        elapsedSet := true;
        if total == 0 {
          FirstChunkFound(body, i);
          return Unexpected(ZeroDivision), downloaded;
        }
      }
    }
    assert body[..|body|] == body;
    if response.broken {
      outcome := RequestFailed;
    } else if !elapsedSet {
      outcome := Unexpected(ElapsedUnbound);
    } else {
      outcome := Completed;
    }
  }

  // ---------------------------------------------------------------------
  // Properties of what reaches the file

  /** Skipping empty chunks never loses a byte. */
  lemma {:induction false} SkippingEmptyChunksLosesNothing(cs: seq<Chunk>)
    ensures Concat(NonEmpty(cs)) == Concat(cs)
  {
    if cs != [] {
      var init, last := cs[..|cs| - 1], cs[|cs| - 1];
      SkippingEmptyChunksLosesNothing(init);
      var extra: seq<Chunk> := if last == [] then [] else [last];
      ConcatAppend(NonEmpty(init), extra);
      if last != [] {
        ConcatSingle(last);
      }
    }
  }

  /** With a non-zero Content-Length the file receives the whole body. */
  lemma KnownLengthWritesWholeBody(total: int, body: seq<Chunk>)
    requires total != 0
    ensures Concat(Written(total, body)) == Concat(body)
  {
    SkippingEmptyChunksLosesNothing(body);
  }

  /**
   * With a missing or zero Content-Length the file receives exactly the
   * first non-empty chunk, or nothing when every chunk is empty.
   */
  lemma {:induction false} UnknownLengthKeepsFirstChunk(body: seq<Chunk>)
    ensures forall j :: 0 <= j < |body| && body[j] != [] && NonEmpty(body[..j]) == [] ==>
              Concat(Written(0, body)) == body[j]
    ensures (forall j :: 0 <= j < |body| ==> body[j] == []) ==> Concat(Written(0, body)) == []
  {
    forall j | 0 <= j < |body| && body[j] != [] && NonEmpty(body[..j]) == []
      ensures Concat(Written(0, body)) == body[j]
    {
      FirstChunkFound(body, j);
      ConcatSingle(body[j]);
    }
    if forall j :: 0 <= j < |body| ==> body[j] == [] {
      AllEmptyNothing(body);
    }
  }

  lemma {:induction false} AllEmptyNothing(body: seq<Chunk>)
    requires forall j :: 0 <= j < |body| ==> body[j] == []
    ensures NonEmpty(body) == []
  {
    if body != [] {
      AllEmptyNothing(body[..|body| - 1]);
    }
  }

  /** Whatever the Content-Length, the file holds a prefix of the body. */
  lemma WrittenIsPrefix(total: int, body: seq<Chunk>)
    ensures Concat(Written(total, body)) <= Concat(body)
  {
    SkippingEmptyChunksLosesNothing(body);
    var ne := NonEmpty(body);
    if total == 0 && ne != [] {
      assert ne == [ne[0]] + ne[1..];
      ConcatAppend([ne[0]], ne[1..]);
      ConcatSingle(ne[0]);
    }
  }

  // ---------------------------------------------------------------------
  // A missing or zero Content-Length truncates the download

  /** Two one-byte chunks and no Content-Length: the file keeps only the first byte. */
  lemma UnknownLengthTruncates()
    ensures var body: seq<Chunk> := [[1], [2]];
      && DownloadOutcome(false, Answer(200, Absent, body, false)) == Unexpected(ZeroDivision)
      && Concat(Written(0, body)) == [1]
      && Concat(body) == [1, 2]
  {
    var body: seq<Chunk> := [[1], [2]];
    assert body[..1] == [[1]] && body[..1][..0] == [];
    assert NonEmpty(body) == [[1], [2]];
    ConcatSingle([1]);
  }

  /**
   * The outcome once the progress computation is guarded by `total_size > 0`:
   * where the division raised, the loop now runs to the end.
   */
  function GuardedOutcome(existed: bool, response: Response): Outcome {
    var outcome := DownloadOutcome(existed, response);
    if outcome == Unexpected(ZeroDivision) then
      (if response.broken then RequestFailed else Completed)
    else outcome
  }

  /**
   * `download_file` with the progress line computed only for a positive
   * Content-Length: an opened file receives the whole body whatever the
   * header says.
   */
  method DownloadFileGuarded(file: LocalFile, response: Response) returns (outcome: Outcome, downloaded: nat)
    modifies file
    ensures outcome == GuardedOutcome(old(file.present), response)
    ensures Opens(old(file.present), response) ==>
      file.present && file.data == Concat(response.body) && downloaded == |file.data|
    ensures !Opens(old(file.present), response) ==>
      file.present == old(file.present) && file.data == old(file.data) && downloaded == 0
  {
    downloaded := 0;
    if file.present {
      return AlreadyExists, 0;
    }
    if response.ConnectFailed? {
      return RequestFailed, 0;
    }
    if response.status != 200 {
      return BadStatus(response.status), 0;
    }
    if response.length.Malformed? {
      return Unexpected(BadContentLength), 0;
    }
    var body := response.body;
    var elapsedSet := false;
    file.OpenForWrite();
    for i := 0 to |body|
      invariant file.present
      invariant file.data == Concat(NonEmpty(body[..i]))
      invariant downloaded == |file.data|
      invariant elapsedSet <==> NonEmpty(body[..i]) != []
    {
      NonEmptyStep(body, i);
      var chunk := body[i];
      if chunk != [] {
        file.Write(chunk);
        downloaded := downloaded + |chunk|;
        elapsedSet := true;
      }
    }
    assert body[..|body|] == body;
    SkippingEmptyChunksLosesNothing(body);
    if response.broken {
      outcome := RequestFailed;
    } else if !elapsedSet {
      outcome := Unexpected(ElapsedUnbound);
    } else {
      outcome := Completed;
    }
  }

  /** The guarded version differs from the original only where the division raised. */
  lemma GuardChangesOnlyZeroDivision(existed: bool, response: Response)
    ensures DownloadOutcome(existed, response) != Unexpected(ZeroDivision) ==>
              GuardedOutcome(existed, response) == DownloadOutcome(existed, response)
    ensures DownloadOutcome(existed, response) == Unexpected(ZeroDivision) <==>
              Opens(existed, response) && DeclaredSize(response.length).value == 0 && NonEmpty(response.body) != []
  {
  }

  // ---------------------------------------------------------------------
  // An example at the source's chunk size of 100 KiB

  function Zeros(n: nat): (c: Chunk)
    ensures |c| == n
  {
    seq(n, k => 0)
  }

  /**
   * A 250000-byte body in chunks of 102400, 102400 and 45200 bytes: with its
   * Content-Length the file receives all of it; without, only 102400 bytes.
   */
  /** A body without empty chunks passes the `if chunk:` filter unchanged. */
  lemma {:induction false} NoEmptyChunkKept(body: seq<Chunk>)
    requires forall k :: 0 <= k < |body| ==> body[k] != []
    ensures NonEmpty(body) == body
  {
    if body != [] {
      NoEmptyChunkKept(body[..|body| - 1]);
    }
  }

  lemma ExampleThreeChunks()
    ensures var body := [Zeros(102400), Zeros(102400), Zeros(45200)];
      && Written(250000, body) == body && |Written(250000, body)| == 3
      && |Concat(Written(250000, body))| == 250000
      && |Concat(Written(0, body))| == 102400
  {
    var body: seq<Chunk> := [Zeros(102400), Zeros(102400), Zeros(45200)];
    NoEmptyChunkKept(body);
    KnownLengthWritesWholeBody(250000, body);
    assert body[..2][..1] == body[..1] && body[..1][..0] == [];
    assert Concat(body) == Concat(body[..2]) + body[2];
    assert NonEmpty(body[..0]) == [];
    UnknownLengthKeepsFirstChunk(body);
  }
}
