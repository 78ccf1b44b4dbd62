/** The upload server of cmd/skicka.go: on a name clash it stores the upload
    under the first free disambiguated name. */
module Skicka {
  import opened Wrappers
  import opened Paths
  import opened Files
  import opened Http

  const GeneratePathFailedMessage := "unable to generate file path"

  const GeneratePathFailedReply := Respond(StatusInternalServerError, Some(GeneratePathFailedMessage))

  /** `getFileName`: `fp` itself when `os.Stat` fails on it, otherwise the
      candidate of the first round on which `os.Stat` fails. Any `os.Stat`
      error counts as free, so the error it returns is always nil. */
  method GetFileName(fs: FileSystem, fp: string) returns (path: string, err: Option<Error>)
    ensures err == None
    ensures fs.Stat(path).StatError?
    ensures fs.Stat(fp).StatError? ==> path == fp
    ensures fs.Stat(fp).Info? ==>
      exists i: nat :: FirstFreeRound(fs.Occupied(), fp, i) && path == Candidate(fp, i)
    ensures path == Resolve(fs.Occupied(), fp)
  {
    ghost var taken := fs.Occupied();
    path := fp;
    var i: nat := 0;
    while fs.Stat(path).Info?
      invariant path == if i == 0 then fp else Candidate(fp, i - 1)
      invariant i > 0 ==> fp in taken
      invariant forall j: nat :: j + 1 < i ==> Candidate(fp, j) in taken
      invariant i <= |taken|
      decreases |taken| - i
    {
      TakenCandidatesBounded(taken, fp, i);
      path := Candidate(fp, i);
      i := i + 1;
    }
    if i > 0 {
      assert FirstFreeRound(taken, fp, i - 1);
    }
    FirstFreeUnique(taken, fp, path, Resolve(taken, fp));
    err := None;
  }

  /** The handler object: the configured media directory (the logger is not
      modelled). */
  datatype UploadHandler = UploadHandler(mediaDir: string) {

    /** `uploadHandler.handler` for one request. A form error writes no reply
        and touches nothing. Otherwise the upload goes to the resolved path:
        a failed create leaves the filesystem as it was, a failed copy leaves
        the created file with whatever bytes reached it, and a full copy
        stores exactly the uploaded bytes. Nothing else changes. */
    method Handler(fs: FileSystem, request: Request, createFails: bool, copy: CopyOutcome)
      returns (reply: Option<Reply>)
      modifies fs
      ensures fs.statFaults == old(fs.statFaults)
      ensures request.FormError? ==> reply == None && fs.entries == old(fs.entries)
      ensures request.FormFile? && createFails ==>
        reply == Some(CreateFailedReply) &&
        fs.entries == old(fs.entries)
      ensures request.FormFile? && !createFails ==>
        var path := Resolve(old(fs.Occupied()), Join(mediaDir, request.filename));
        (path !in old(fs.entries) || path in old(fs.statFaults)) &&
        (path !in old(fs.entries) ==> |fs.entries| == |old(fs.entries)| + 1) &&
        match copy
        case Copied =>
          reply == Some(UploadedReply) &&
          fs.entries == old(fs.entries)[path := File(request.content)]
        case CopyInterrupted(written) =>
          reply == Some(CopyFailedReply) &&
          fs.entries == old(fs.entries)[path := File(written)]
    {
      if request.FormError? {
        return None;
      }

      ghost var before := fs.entries;
      ghost var taken := fs.Occupied();
      var fullFilePath := Join(mediaDir, request.filename);
      var err;
      fullFilePath, err := GetFileName(fs, fullFilePath);
      if err.Some? {
        return Some(GeneratePathFailedReply);
      }
      ghost var resolved := fullFilePath;
      assert resolved !in before || resolved in fs.statFaults;
      err := fs.Create(fullFilePath, createFails);
      if err.Some? {
        return Some(CreateFailedReply);
      }
      err := fs.Copy(fullFilePath, request.content, copy);
      ghost var stored := File(if copy.Copied? then request.content else copy.written);
      assert fs.entries == before[resolved := stored];
      if resolved !in before {
        AddsExactlyOne(before, resolved, stored);
      }
      if err.Some? {
        return Some(CopyFailedReply);
      }
      return Some(UploadedReply);
    }
  }

  /** Two uploads of the same name into an empty media directory: both
      succeed, the first keeps its name, the second lands at the round-0
      candidate (`a(0).txt` for `a.txt`), and the first file is untouched. */
  method SameNameTwice(mediaDir: string, name: string, first: seq<byte>, second: seq<byte>)
    returns (replies: seq<Option<Reply>>, stored: map<string, Entry>)
    requires name != []
    ensures replies == [Some(UploadedReply), Some(UploadedReply)]
    ensures var fp := Join(mediaDir, name);
      Candidate(fp, 0) != fp &&
      stored == map[mediaDir := Directory, fp := File(first), Candidate(fp, 0) := File(second)]
  {
    var fs := new FileSystem(map[mediaDir := Directory], {});
    var handler := UploadHandler(mediaDir);
    var fp := Join(mediaDir, name);
    assert |Candidate(fp, 0)| > |fp| > |mediaDir|;
    ResolveFirstRound({mediaDir}, fp);
    var r1 := handler.Handler(fs, FormFile(name, first), false, Copied);
    assert fs.Occupied() == {mediaDir} + {fp};
    var r2 := handler.Handler(fs, FormFile(name, second), false, Copied);
    replies := [r1, r2];
    stored := fs.entries;
  }
}
