/** The upload server of src/main.go: a fixed media directory, and on a name
    clash it refuses the upload with 303 instead of renaming. */
module Legacy {
  import opened Wrappers
  import opened Paths
  import opened Files
  import opened Http
  import Startup

  const MediaDirectory := "/tmp/skicka/"

  const ExistsMessage := "file already exists"

  const ExistsReply := Respond(StatusSeeOther, Some(ExistsMessage))

  /** `uploadHandler`: a form error writes no reply and touches nothing; an
      upload whose path `os.Stat` finds is refused with 303 and nothing
      changes; otherwise the upload is written under its own name, with the
      same create and copy outcomes as the renaming server. */
  method UploadHandler(fs: FileSystem, request: Request, createFails: bool, copy: CopyOutcome)
    returns (reply: Option<Reply>)
    modifies fs
    ensures fs.statFaults == old(fs.statFaults)
    ensures request.FormError? ==> reply == None && fs.entries == old(fs.entries)
    ensures request.FormFile? && old(fs.Stat(Join(MediaDirectory, request.filename))).Info? ==>
      reply == Some(ExistsReply) && fs.entries == old(fs.entries)
    ensures request.FormFile? && old(fs.Stat(Join(MediaDirectory, request.filename))).StatError? ==>
      var path := Join(MediaDirectory, request.filename);
      (!createFails && path !in old(fs.entries) ==> |fs.entries| == |old(fs.entries)| + 1) &&
      if createFails then
        reply == Some(CreateFailedReply) && fs.entries == old(fs.entries)
      else
        match copy
        case Copied =>
          reply == Some(UploadedReply) && fs.entries == old(fs.entries)[path := File(request.content)]
        case CopyInterrupted(written) =>
          reply == Some(CopyFailedReply) && fs.entries == old(fs.entries)[path := File(written)]
  {
    if request.FormError? {
      return None;
    }
    var fullFilePath := Join(MediaDirectory, request.filename);
    var info := fs.Stat(fullFilePath);
    if info.Info? {
      return Some(ExistsReply);
    }
    ghost var before := fs.entries;
    var err := fs.Create(fullFilePath, createFails);
    if err.Some? {
      return Some(CreateFailedReply);
    }
    err := fs.Copy(fullFilePath, request.content, copy);
    ghost var stored := File(if copy.Copied? then request.content else copy.written);
    assert fs.entries == before[fullFilePath := stored];
    if fullFilePath !in before {
      AddsExactlyOne(before, fullFilePath, stored);
    }
    if err.Some? {
      return Some(CopyFailedReply);
    }
    return Some(UploadedReply);
  }

  /** `initMediaFolder` on the fixed directory `/tmp/skicka/`. */
  method InitMediaFolder(fs: FileSystem, mkdirFails: bool) returns (err: Option<Error>)
    modifies fs
    ensures old(fs.Stat(MediaDirectory)) == StatError(NotExist) ==>
      err == (if mkdirFails then Some(MkdirFailed) else None) &&
      fs.entries == (if mkdirFails then old(fs.entries) else old(fs.entries)[MediaDirectory := Directory])
    ensures old(fs.Stat(MediaDirectory)).StatError? && old(fs.Stat(MediaDirectory)).err != NotExist ==>
      err == Some(old(fs.Stat(MediaDirectory)).err) && fs.entries == old(fs.entries)
    ensures old(fs.Stat(MediaDirectory)) == Info(false) ==>
      err == Some(Message(Startup.NotADirectoryMessage)) && fs.entries == old(fs.entries)
    ensures old(fs.Stat(MediaDirectory)) == Info(true) ==> err == None && fs.entries == old(fs.entries)
    ensures fs.statFaults == old(fs.statFaults)
    ensures err.None? <==> fs.Stat(MediaDirectory) == Info(true)
  {
    err := Startup.InitMediaFolder(fs, MediaDirectory, mkdirFails);
  }

  /** Two uploads of the same name into an empty media directory: the first
      is stored, the second is refused with 303 and changes nothing. */
  method SameNameTwice(name: string, first: seq<byte>, second: seq<byte>)
    returns (replies: seq<Option<Reply>>, stored: map<string, Entry>)
    requires name != []
    ensures replies == [Some(UploadedReply), Some(ExistsReply)]
    ensures stored == map[MediaDirectory := Directory, Join(MediaDirectory, name) := File(first)]
  {
    var fs := new FileSystem(map[MediaDirectory := Directory], {});
    assert |Join(MediaDirectory, name)| > |MediaDirectory|;
    var r1 := UploadHandler(fs, FormFile(name, first), false, Copied);
    var r2 := UploadHandler(fs, FormFile(name, second), false, Copied);
    replies := [r1, r2];
    stored := fs.entries;
  }
}
