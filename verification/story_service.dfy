/** `StoryService`: story submission with a best-effort upload, and the two
    interaction entry points, which have no body yet. The service returns
    the calls it makes (upload, then save) instead of performing them. */
module StoryService {
  import opened Common

  /** An uploaded multipart file; it is empty when it has no bytes. */
  datatype MultipartFile = MultipartFile(contentType: Option<string>, bytes: seq<bv8>)

  predicate IsEmptyFile(f: MultipartFile)
  {
    |f.bytes| == 0
  }

  /** The request object `StoryPVO`, with the fields the service reads. */
  datatype StoryRequest = StoryRequest(
    id: Option<string>,
    file: Option<MultipartFile>,
    storyFileName: Option<string>,
    showYn: Option<string>,
    keepYn: Option<string>)

  /** The story record as the builder leaves it; its number is generated by
      the store. */
  datatype Story = Story(
    id: Option<string>,
    storyFileName: Option<string>,
    storyTime: Option<string>,
    showYn: Option<string>,
    keepYn: Option<string>)

  /** What the upload primitive does with one file: stores it and returns a
      name, or fails with an `IOException`. */
  datatype UploadResult = Uploaded(fileName: Option<string>) | UploadIOError

  /** The upload primitive: file, target directory, allowed content types. */
  type Uploader = (MultipartFile, string, seq<string>) -> UploadResult

  /** The calls the service makes, in order. */
  datatype StoryEffect =
    | Upload(file: MultipartFile, directory: string, allowedTypes: seq<string>)
    | SaveStory(story: Story)

  /** The content types a story upload accepts. */
  const AllowedTypes: seq<string> := ["image/png", "image/jpg", "image/jpeg", "image/gif"]

  /** Which caller the id check refuses. `AsWritten` refuses a request that
      carries an id; `LoggedInOnly` refuses one that does not. */
  datatype AuthPolicy = AsWritten | LoggedInOnly

  /** The id check passes. */
  predicate CallerAccepted(policy: AuthPolicy, req: StoryRequest)
  {
    match policy
    case AsWritten => !IsNotEmpty(req.id)
    case LoggedInOnly => IsNotEmpty(req.id)
  }

  /** A non-empty file is attached. */
  predicate MediaAttached(req: StoryRequest)
  {
    req.file.Some? && !IsEmptyFile(req.file.value)
  }

  /** What `registStory` returns (always null on success), the request object
      as it was left (the uploaded name is stored into it), and the calls
      made. */
  datatype StoryOutcome = StoryOutcome(result: Result<Option<Story>>, request: StoryRequest, trace: seq<StoryEffect>)

  /** The story file name after the upload attempt: the uploaded name, or
      whatever the request held when the upload failed. */
  function FileNameAfter(req: StoryRequest, upload: UploadResult): Option<string>
  {
    match upload
    case Uploaded(name) => name
    case UploadIOError => req.storyFileName
  }

  /** `registStory` with the id check chosen by `policy`. */
  function RegistStoryWith(policy: AuthPolicy, req: StoryRequest, filePath: string, upload: Uploader)
    : (r: StoryOutcome)
    ensures r.result.Success? <==> CallerAccepted(policy, req) && MediaAttached(req)
    ensures r.result.Success? ==> r.result.value.None?
    ensures r.result.Failure? ==>
      && r.result.error == CustomException(ArgumnetError,
                             if !CallerAccepted(policy, req) then LoginRequired else MediaRequired)
      && r.trace == [] && r.request == req
    ensures r.result.Success? ==>
      var name := FileNameAfter(req, upload(req.file.value, filePath, AllowedTypes));
      && r.trace == [Upload(req.file.value, filePath, AllowedTypes),
                     SaveStory(Story(req.id, name, Some(""), req.showYn, req.keepYn))]
      && r.request == req.(storyFileName := name)
  {
    if !CallerAccepted(policy, req) then
      StoryOutcome(Failure(CustomException(ArgumnetError, LoginRequired)), req, [])
    else if req.file.None? || IsEmptyFile(req.file.value) then
      StoryOutcome(Failure(CustomException(ArgumnetError, MediaRequired)), req, [])
    else
      var file := req.file.value;
      var uploaded := upload(file, filePath, AllowedTypes);
      var req' := match uploaded
                  case Uploaded(name) => req.(storyFileName := name)
                  case UploadIOError => req;
      var story := Story(req'.id, req'.storyFileName, Some(""), req'.showYn, req'.keepYn);
      StoryOutcome(Success(None), req', [Upload(file, filePath, AllowedTypes), SaveStory(story)])
  }

  /** `registStory` as the source writes it. */
  function RegistStory(req: StoryRequest, filePath: string, upload: Uploader): (r: StoryOutcome)
    ensures r.result.Success? ==> !IsNotEmpty(req.id)
  {
    RegistStoryWith(AsWritten, req, filePath, upload)
  }

  /** The stories saved by a trace, in order. */
  function SavedStories(trace: seq<StoryEffect>): (r: seq<Story>)
    ensures |r| <= |trace|
    ensures forall s :: s in r ==> SaveStory(s) in trace
    ensures forall s :: SaveStory(s) in trace ==> s in r
  {
    if |trace| == 0 then []
    else (match trace[0] case SaveStory(s) => [s] case Upload(_, _, _) => []) + SavedStories(trace[1..])
  }

  /** Both checks run before any call; the id check comes first. */
  lemma RegistStoryChecksFirst(policy: AuthPolicy, req: StoryRequest, filePath: string, upload: Uploader)
    ensures !CallerAccepted(policy, req) ==>
      RegistStoryWith(policy, req, filePath, upload).result == Failure(CustomException(ArgumnetError, LoginRequired))
    ensures CallerAccepted(policy, req) && !MediaAttached(req) ==>
      RegistStoryWith(policy, req, filePath, upload).result == Failure(CustomException(ArgumnetError, MediaRequired))
    ensures !RegistStoryWith(policy, req, filePath, upload).result.Success? ==>
      SavedStories(RegistStoryWith(policy, req, filePath, upload).trace) == []
  {
  }

  /** An upload failure does not stop the save: exactly one story is saved,
      under the file name the request already held. */
  lemma UploadFailureStillSaves(policy: AuthPolicy, req: StoryRequest, filePath: string, upload: Uploader)
    requires CallerAccepted(policy, req) && MediaAttached(req)
    requires upload(req.file.value, filePath, AllowedTypes) == UploadIOError
    ensures SavedStories(RegistStoryWith(policy, req, filePath, upload).trace)
         == [Story(req.id, req.storyFileName, Some(""), req.showYn, req.keepYn)]
  {
    var t := RegistStoryWith(policy, req, filePath, upload).trace;
    assert t[1..][1..] == [];
  }

  /** A successful submission saves exactly one story, owned by the request's
      id, with an empty story time and the request's flags. */
  lemma SubmissionSavesOneStory(policy: AuthPolicy, req: StoryRequest, filePath: string, upload: Uploader)
    requires CallerAccepted(policy, req) && MediaAttached(req)
    ensures var saved := SavedStories(RegistStoryWith(policy, req, filePath, upload).trace);
      && |saved| == 1
      && saved[0].id == req.id && saved[0].storyTime == Some("")
      && saved[0].showYn == req.showYn && saved[0].keepYn == req.keepYn
  {
    var t := RegistStoryWith(policy, req, filePath, upload).trace;
    assert t[1..][1..] == [];
  }

  /** As written, the id check is inverted: a logged-in caller with a valid
      file is always refused, and every story that does get saved has no
      owner. */
  lemma AsWrittenRefusesLoggedIn(req: StoryRequest, filePath: string, upload: Uploader)
    ensures IsNotEmpty(req.id) ==>
      RegistStory(req, filePath, upload).result == Failure(CustomException(ArgumnetError, LoginRequired))
    ensures forall s :: s in SavedStories(RegistStory(req, filePath, upload).trace) ==> IsNullOrEmpty(s.id)
  {
    var r := RegistStory(req, filePath, upload);
    if r.result.Success? {
      assert r.trace[1..][1..] == [];
    }
  }

  /** With the check the way round it is meant, every saved story is owned
      by a logged-in member. */
  lemma LoggedInOnlySavesOwnedStories(req: StoryRequest, filePath: string, upload: Uploader)
    ensures forall s :: s in SavedStories(RegistStoryWith(LoggedInOnly, req, filePath, upload).trace) ==>
      IsNotEmpty(s.id) && s.id == req.id
  {
    var r := RegistStoryWith(LoggedInOnly, req, filePath, upload);
    if r.result.Success? {
      assert r.trace[1..][1..] == [];
    }
  }

  /** The request `StoryReactionPVO`: which story, which member. */
  datatype StoryReactionRequest = StoryReactionRequest(storyNo: Option<int>, id: Option<string>)

  /** A reaction record `StoryReactionEntity`, by story and member. */
  datatype StoryReaction = StoryReaction(storyNo: Option<int>, id: Option<string>)

  /** The watch record `StoryWatchingEntity`; also the shape of its request. */
  datatype StoryWatching = StoryWatching(storyWatchingNo: Option<int>, storyNo: Option<int>, id: Option<string>)

  /** The result of an interaction call and the calls it made. */
  datatype InteractionOutcome<T> = InteractionOutcome(result: Result<Option<T>>, trace: seq<StoryEffect>)

  /** `storyReactionRegist`: has no body yet; returns null and calls nothing. */
  function StoryReactionRegist(req: StoryReactionRequest): (r: InteractionOutcome<StoryReaction>)
    ensures r.result == Success(None) && r.trace == []
  {
    InteractionOutcome(Success(None), [])
  }

  /** `storyWatchingHistory`: has no body yet; returns null and calls nothing. */
  function StoryWatchingHistory(req: StoryWatching): (r: InteractionOutcome<StoryWatching>)
    ensures r.result == Success(None) && r.trace == []
  {
    InteractionOutcome(Success(None), [])
  }

  /** Neither interaction call saves a story or uploads a file. */
  lemma InteractionsWriteNothing(react: StoryReactionRequest, watch: StoryWatching)
    ensures SavedStories(StoryReactionRegist(react).trace) == []
    ensures SavedStories(StoryWatchingHistory(watch).trace) == []
  {
  }
}
