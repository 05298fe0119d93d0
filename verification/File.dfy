/** cc::file and its write_data, updating their fields and the disk in place. Every method
    is tied to the functions of Target and Transfer. */
module File {
  import opened Common
  import opened Decimal
  import opened Target
  import opened Transfer

  /** The file system. */
  class Disk {
    var files: Files
    constructor (files: Files)
      ensures this.files == files
    { this.files := files; }
  }

  /** The process-wide flag that the signal handler sets. */
  class Flags {
    var recvSigusr1: bool
    constructor ()
      ensures !recvSigusr1
    { recvSigusr1 := false; }
  }

  /** The last component of a path. */
  function FileName(path: string): string {
    if path == [] || path[|path| - 1] == '/' then []
    else FileName(path[..|path| - 1]) + [path[|path| - 1]]
  }

  /** The name is what stands behind the last slash. */
  lemma {:induction false} FileNameIff(path: string, dir: string, name: string)
    requires path == dir + name && (dir == [] || dir[|dir| - 1] == '/')
    ensures FileName(path) == name <==> '/' !in name
  {
    if name == [] {
      assert path == dir;
    } else {
      var last := name[|name| - 1];
      assert path[|path| - 1] == last && path[..|path| - 1] == dir + name[..|name| - 1];
      assert name == name[..|name| - 1] + [last];
      FileNameIff(path[..|path| - 1], dir, name[..|name| - 1]);
    }
  }

  function IoError(path: string): string { path + ": unknown i/o error" }

  class MediaFile {
    var initialLength: nat
    var errmsg: string
    var nothingTodo: bool
    var title: string
    var name: string
    var path: string

    ghost function Loc(): Location reads this {
      Location(path, initialLength, nothingTodo)
    }

    ghost predicate Named() reads this { name == FileName(path) }

    constructor (media: Media, opts: Options, disk: Disk)
      ensures Loc() == Locate(disk.files, media, opts)
      ensures Named() && title == media.title && errmsg == ""
    {
      initialLength, errmsg, nothingTodo := 0, "", false;
      title, name, path := "", "", "";
      new;
      var thrown := Init(media, opts, disk);
      if thrown {
        nothingTodo := true;
      }
    }

    method StorePath(p: string)
      modifies this`name, this`path
      ensures path == p && Named()
    {
      name := FileName(p);
      path := p;
    }

    static method Exists(disk: Disk, p: string) returns (size: nat)
      ensures size == SizeOf(disk.files, p)
    {
      if p in disk.files {
        return |disk.files[p]|;
      }
      return 0;
    }

    /** Decides path and offset; the result says whether nothing_todo was thrown. */
    method Init(media: Media, opts: Options, disk: Disk) returns (thrown: bool)
      requires initialLength == 0
      modifies this`title, this`name, this`path, this`initialLength
      ensures Location(path, initialLength, thrown) == Locate(disk.files, media, opts)
      ensures Named() && title == media.title
    {
      title := media.title;
      match opts.choice {
        case OutputFile(ofname) =>
          StorePath(ofname);
          initialLength := Exists(disk, path);
          if initialLength >= media.contentLength && !opts.overwrite {
            return true;
          }
        case FilenameFormat(base) =>
          StorePath(base);
          if !opts.overwrite {
            var i := 0;
            while i < INT_MAX
              invariant 0 <= i <= INT_MAX
              invariant path == Candidate(base, i) && Named() && title == media.title
              invariant initialLength == if i == 0 then 0 else SizeOf(disk.files, Candidate(base, i - 1))
              invariant PassedOver(disk.files, media, opts, i)
            {
              initialLength := Exists(disk, path);
              if initialLength == 0 {
                break;
              } else if initialLength >= media.contentLength {
                StoppedAt(disk.files, media, opts, i);
                return true;
              } else if opts.resume {
                break;
              }
              PassOver(disk.files, media, opts, i);
              StorePath(base + "." + Numeral(i));
              i := i + 1;
            }
            StoppedAt(disk.files, media, opts, i);
          }
      }
      if opts.overwrite {
        initialLength := 0;
      }
      return false;
    }

    /** One attempt. rc is what curl_easy_perform returned. */
    method Write(opts: Options, disk: Disk, flags: Flags, plan: Plan)
      returns (outcome: Outcome, rc: int)
      requires errmsg == ""
      modifies this`errmsg, disk, flags
      ensures Attempt(disk.files, flags.recvSigusr1, rc, outcome)
           == Try(old(disk.files), old(flags.recvSigusr1), Loc(), opts.overwrite, plan)
    {
      var w := new WriteData(this, disk);
      var isOpen := w.OpenFile(opts.overwrite, plan.openFails);
      if !isOpen {
        return OpenFailed, CURLE_OK;
      }
      assert w.Now(flags) == StartOf(old(disk.files), old(flags.recvSigusr1), Loc(), opts.overwrite);
      rc := w.EasyPerform(flags, plan, old(disk.files));
      ghost var failed := errmsg != "";
      assert Attempt(disk.files, flags.recvSigusr1, rc, Verdict(rc, plan.resp, failed))
          == Try(old(disk.files), old(flags.recvSigusr1), Loc(), opts.overwrite, plan);
      var error := "";
      if rc == CURLE_OK {
        if plan.resp != 200 && plan.resp != 206 {
          error := "server response code, expected 200 or 206";
        }
      } else if rc == CURLE_WRITE_ERROR {
        error := errmsg;
      } else {
        error := "curl error";
      }
      if error != "" {
        outcome := PrintError(plan.resp, rc);
      } else {
        outcome := Returned(true);
      }
    }
  }

  /** There is a search, and it passes over the first i candidates. */
  predicate PassedOver(files: Files, media: Media, opts: Options, i: nat) {
    && opts.choice.FilenameFormat? && !opts.overwrite
    && forall j :: 0 <= j < i ==> Skips(files, opts.choice.base, media.contentLength, opts.resume, j)
  }

  lemma PassOver(files: Files, media: Media, opts: Options, i: nat)
    requires PassedOver(files, media, opts, i)
    requires !opts.resume && Partial(files, Candidate(opts.choice.base, i), media.contentLength)
    ensures PassedOver(files, media, opts, i + 1)
  {
  }

  /** A search that passes over the candidates before i and not over i, or gives up at i. */
  lemma StoppedAt(files: Files, media: Media, opts: Options, i: nat)
    requires i <= INT_MAX && PassedOver(files, media, opts, i)
    requires i < INT_MAX ==> !Skips(files, opts.choice.base, media.contentLength, opts.resume, i)
    ensures Locate(files, media, opts) == LocationAt(files, opts.choice.base, media.contentLength, i)
  {
    var k := StopIndex(files, opts.choice.base, media.contentLength, opts.resume, 0);
    assert k == i;
  }

  /** progressbar::print_error: throws on 400..500, otherwise says whether to go on. */
  method PrintError(resp: int, rc: int) returns (outcome: Outcome)
    ensures outcome == if 400 <= resp <= 500 then HttpError else Returned(rc == CURLE_ABORTED_BY_CALLBACK)
  {
    if resp >= 400 && resp <= 500 {
      return HttpError;
    }
    var r := false;
    if rc == 42 {
      r := true;
    }
    return Returned(r);
  }

  class WriteData {
    const file: MediaFile
    const disk: Disk
    var failed: bool  // of the open stream

    constructor (file: MediaFile, disk: Disk)
      ensures this.file == file && this.disk == disk && !failed
    {
      this.file, this.disk, failed := file, disk, false;
    }

    method OpenFile(overwrite: bool, openFails: bool) returns (ok: bool)
      modifies disk
      ensures ok == !openFails
      ensures disk.files == if openFails then old(disk.files) else
        old(disk.files)[file.path := Opened(old(disk.files), file.path,
                                            OpenMode(overwrite, file.initialLength))]
    {
      if openFails {
        return false;
      }
      if overwrite {
        disk.files := disk.files[file.path := []];
      } else if file.initialLength > 0 {
        if file.path !in disk.files {
          disk.files := disk.files[file.path := []];
        }
      } else {
        disk.files := disk.files[file.path := []];
      }
      return true;
    }

    ghost predicate Open() reads this, file, disk {
      file.path in disk.files && (failed <==> file.errmsg != "")
    }

    ghost function TheStream(): Stream
      requires Open()
      reads this, file, disk
    {
      Stream(disk.files[file.path], failed)
    }

    /** Returns the number of bytes taken, as libcurl expects it; 0 after an error. */
    method WriteCb(data: seq<Byte>, kept: nat, ok: bool) returns (n: nat)
      requires Open()
      modifies this`failed, file`errmsg, disk
      ensures Open()
      ensures TheStream() == Written(old(TheStream()), data, kept, ok)
      ensures disk.files == old(disk.files)[file.path := TheStream().content]
      ensures n == if failed then 0 else |data|
    {
      if !failed {
        if ok {
          disk.files := disk.files[file.path := disk.files[file.path] + data];
          return |data|;
        }
        disk.files := disk.files[file.path := disk.files[file.path] + data[..Min(kept, |data|)]];
        failed := true;
      }
      assert failed;
      file.errmsg := IoError(file.path);
      return 0;
    }

    /** Non-zero aborts the transfer. */
    method ProgressCb(flags: Flags) returns (n: int)
      modifies flags
      ensures n == (if old(flags.recvSigusr1) then 1 else 0) && !flags.recvSigusr1
    {
      if flags.recvSigusr1 {
        flags.recvSigusr1 := false;
        return 1;
      }
      return 0;
    }

    ghost function Now(flags: Flags): Xfer
      requires Open()
      reads this, file, disk, flags
    {
      Xfer(TheStream(), flags.recvSigusr1, Running)
    }

    /** libcurl makes one callback; the result says whether it goes on. */
    method CallBack(flags: Flags, step: Step) returns (stop: Stop)
      requires Open()
      modifies this`failed, file`errmsg, disk, flags
      ensures Open() && Now(flags).(stop := stop) == After(old(Now(flags)), step)
      ensures disk.files == old(disk.files)[file.path := TheStream().content]
    {
      stop := Running;
      match step {
        case Chunk(data, kept, ok) =>
          var n := WriteCb(data, kept, ok);
          if n != |data| {
            return ShortWrite;
          }
        case Progress(signalled) =>
          if signalled {
            flags.recvSigusr1 := true;
          }
          var n := ProgressCb(flags);
          if n != 0 {
            return Aborted;
          }
      }
    }

    /** libcurl's side of the contract: calls back until a callback objects. */
    method EasyPerform(flags: Flags, plan: Plan, ghost before: Files) returns (rc: int)
      requires Open() && !failed
      requires disk.files == before[file.path := disk.files[file.path]]
      modifies this`failed, file`errmsg, disk, flags
      ensures Open()
      ensures var x := Perform(old(Now(flags)), plan.steps);
        && TheStream() == x.stream && flags.recvSigusr1 == x.pending
        && rc == CurlCode(x.stop, plan.rc)
        && disk.files == before[file.path := x.stream.content]
    {
      ghost var end := Perform(Now(flags), plan.steps);
      var i := 0;
      while i < |plan.steps|
        invariant 0 <= i <= |plan.steps|
        invariant Open() && disk.files == before[file.path := disk.files[file.path]]
        invariant end == Perform(Now(flags), plan.steps[i..])
      {
        PerformAt(Now(flags), plan.steps, i);
        var stop := CallBack(flags, plan.steps[i]);
        match stop {
          case ShortWrite => return CURLE_WRITE_ERROR;
          case Aborted => return CURLE_ABORTED_BY_CALLBACK;
          case Running => i := i + 1;
        }
      }
      return plan.rc;
    }
  }

  lemma PerformAt(x: Xfer, steps: seq<Step>, i: nat)
    requires i < |steps| && x.stop == Running
    ensures var y := After(x, steps[i]);
      Perform(x, steps[i..]) == if y.stop == Running then Perform(y, steps[i + 1..]) else y
  {
    assert steps[i..][0] == steps[i] && steps[i..][1..] == steps[i + 1..];
  }
}
