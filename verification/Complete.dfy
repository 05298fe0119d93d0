/** When get takes a media file for retrieved completely, and when it is. */
module Complete {
  import opened Target
  import opened Get
  import opened OnePath

  predicate IsComplete(files: Files, path: string, media: Media) {
    path in files && files[path] == media.bytes
  }

  /** Every file is a prefix of the media. */
  predicate PrefixDisk(files: Files, media: Media) {
    forall p :: p in files ==> files[p] <= media.bytes
  }

  /** Whenever get says that nothing is left to do, it is right. */
  ghost predicate TrustsRightly(media: Media, opts: Options) {
    forall files: Files | PrefixDisk(files, media) ::
      var loc := Locate(files, media, opts);
      loc.nothingTodo ==> IsComplete(files, loc.path, media)
  }

  /** What the announced length has to be. With --output-file not even a file is needed if it
      is 0; otherwise a single byte is enough. */
  predicate Announced(media: Media, opts: Options) {
    match opts.choice
    case OutputFile(_) => media.contentLength >= |media.bytes| && media.contentLength >= 1
    case FilenameFormat(_) => media.contentLength >= |media.bytes| || |media.bytes| <= 1
  }

  /** A disk on which get stops too early. */
  lemma StopsEarly(media: Media, opts: Options) returns (files: Files)
    requires !opts.overwrite && !Announced(media, opts)
    ensures PrefixDisk(files, media)
    ensures var loc := Locate(files, media, opts);
      loc.nothingTodo && !IsComplete(files, loc.path, media)
  {
    match opts.choice
    case OutputFile(path) =>
      if media.contentLength < 1 {
        files := map[];
      } else {
        files := map[path := media.bytes[..media.contentLength]];
      }
    case FilenameFormat(base) =>
      var n := if media.contentLength < 1 then 1 else media.contentLength;
      files := map[base := media.bytes[..n]];
      assert !Skips(files, base, media.contentLength, opts.resume, 0);
  }

  /** Exactly when "retrieved completely already" can be trusted on every disk that holds
      nothing but prefixes of the media. */
  lemma TrustsRightlyIff(media: Media, opts: Options)
    ensures TrustsRightly(media, opts) <==> opts.overwrite || Announced(media, opts)
  {
    if opts.overwrite {
    } else if Announced(media, opts) {
      forall files: Files | PrefixDisk(files, media) && Locate(files, media, opts).nothingTodo
        ensures IsComplete(files, Locate(files, media, opts).path, media)
      {
        assert Locate(files, media, opts).path in files;
      }
    } else {
      var files := StopsEarly(media, opts);
    }
  }

  /** Started again on a complete file, get changes nothing and says that nothing is left to
      do, unless the announced length is too large or the file is an empty one without
      --output-file. */
  lemma CompleteIsLeftAlone(files: Files, pending: bool, media: Media, opts: Options, net: Transport)
    requires !opts.overwrite && (opts.resume || opts.choice.OutputFile?) && opts.maxRetries >= 0
    requires IsComplete(files, PathOf(opts), media)
    ensures var loc := Locate(files, media, opts);
      && loc.path == PathOf(opts)
      && (loc.nothingTodo
          <==> media.contentLength <= |media.bytes| && (opts.choice.OutputFile? || media.bytes != []))
    ensures var loc := Locate(files, media, opts);
      loc.nothingTodo ==>
        Run(files, pending, media, opts, net, 0)
        == Result(files, pending, [Probe(loc)] + Execs(opts, loc.path), ThrewNothingTodo)
  {
  }
}
