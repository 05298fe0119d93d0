/** Where a media file is written to and from which offset: cc::file::_init. */
module Target {
  import opened Decimal

  type Byte = b: int | 0 <= b < 256

  /** The regular files of the file system. */
  type Files = map<string, seq<Byte>>

  const INT_MAX: int := 0x7fff_ffff

  /** What libquvi reports. The reported length need not be the length of the bytes. */
  datatype Media = Media(bytes: seq<Byte>, contentLength: int, title: string)

  /** --output-file names the file; otherwise the name comes from --filename-format. */
  datatype Choice = OutputFile(path: string) | FilenameFormat(base: string)

  datatype Options = Options(
    choice: Choice,
    overwrite: bool,
    resume: bool,        // --continue
    maxRetries: int,
    retryWait: int,
    noDownload: bool,
    exec: bool)

  /** The part of a cc::file that _init decides. */
  datatype Location = Location(path: string, offset: nat, nothingTodo: bool)

  /** cc::file::exists: the size of the file, 0 when there is none. */
  function SizeOf(files: Files, path: string): nat {
    if path in files then |files[path]| else 0
  }

  predicate Partial(files: Files, path: string, length: int) {
    0 < SizeOf(files, path) < length
  }

  /** The search passes over candidate j. */
  predicate Skips(files: Files, base: string, length: int, resume: bool, j: nat) {
    !resume && Partial(files, Candidate(base, j), length)
  }

  /** The candidate at which the search starting at i stops; INT_MAX when it gives up. */
  function StopIndex(files: Files, base: string, length: int, resume: bool, i: nat): (k: nat)
    requires i <= INT_MAX
    ensures i <= k <= INT_MAX
    ensures forall j :: i <= j < k ==> Skips(files, base, length, resume, j)
    ensures k < INT_MAX ==> !Skips(files, base, length, resume, k)
    decreases INT_MAX - i
  {
    if i < INT_MAX && Skips(files, base, length, resume, i)
    then StopIndex(files, base, length, resume, i + 1)
    else i
  }

  /** What the search leaves behind at candidate k. A search that gives up has already
      moved on to the next name, but still holds the size of the one before. */
  function LocationAt(files: Files, base: string, length: int, k: nat): Location
    requires k <= INT_MAX
  {
    var path := Candidate(base, k);
    if k == INT_MAX then Location(path, SizeOf(files, Candidate(base, k - 1)), false)
    else
      var size := SizeOf(files, path);
      Location(path, size, size != 0 && size >= length)
  }

  function Locate(files: Files, media: Media, opts: Options): Location {
    match opts.choice
    case OutputFile(path) =>
      var size := SizeOf(files, path);
      if size >= media.contentLength && !opts.overwrite then Location(path, size, true)
      else Location(path, if opts.overwrite then 0 else size, false)
    case FilenameFormat(base) =>
      if opts.overwrite then Location(base, 0, false)
      else LocationAt(files, base, media.contentLength,
                      StopIndex(files, base, media.contentLength, opts.resume, 0))
  }

  // ----- Properties of the search

  /** The chosen name is the first candidate that is not passed over, and the only one
      with that property. */
  lemma SearchFindsFirst(files: Files, base: string, length: int, resume: bool, k: nat)
    requires k < INT_MAX
    requires !Skips(files, base, length, resume, k)
    requires forall j :: 0 <= j < k ==> Skips(files, base, length, resume, j)
    ensures StopIndex(files, base, length, resume, 0) == k
  {
  }

  /** With n existing files the search looks at no more than n + 1 candidates. */
  lemma SearchIsShort(files: Files, base: string, length: int, resume: bool)
    ensures StopIndex(files, base, length, resume, 0) <= |files|
  {
    var k := StopIndex(files, base, length, resume, 0);
    forall p | p in Candidates(base, k) ensures p in files.Keys {
      var j :| 0 <= j < k && Candidate(base, j) == p;
      assert Skips(files, base, length, resume, j);
    }
    CandidatesDistinct(base, k);
    SubsetSize(Candidates(base, k), files.Keys);
  }

  /** Names of the first n candidates, each partial. */
  predicate AllPartial(files: Files, base: string, length: int, n: nat) {
    forall j :: 0 <= j < n ==> Partial(files, Candidate(base, j), length)
  }

  /** The search gives up exactly when all of the first INT_MAX candidates are partial. */
  lemma SearchGivesUpIff(files: Files, base: string, length: int, resume: bool)
    ensures StopIndex(files, base, length, resume, 0) == INT_MAX
       <==> !resume && AllPartial(files, base, length, INT_MAX)
  {
    var k := StopIndex(files, base, length, resume, 0);
    if k == INT_MAX {
      assert Skips(files, base, length, resume, 0);
      forall j | 0 <= j < INT_MAX ensures Partial(files, Candidate(base, j), length) {
        assert Skips(files, base, length, resume, j);
      }
    } else {
      assert !(!resume && Partial(files, Candidate(base, k), length));
    }
  }

  /** The search is bounded away from giving up. */
  predicate SearchSettles(files: Files, media: Media, opts: Options) {
    opts.choice.OutputFile? || opts.overwrite || opts.resume
    || !AllPartial(files, opts.choice.base, media.contentLength, INT_MAX)
  }

  /** What a search without --continue and --overwrite comes to: the first candidate that is
      not partial, where nothing is left to do if it holds any bytes. */
  lemma FreshLocated(files: Files, media: Media, opts: Options, k: nat)
    requires opts.choice.FilenameFormat? && !opts.overwrite && !opts.resume && k <= INT_MAX
    requires AllPartial(files, opts.choice.base, media.contentLength, k)
    requires k < INT_MAX ==> !Partial(files, Candidate(opts.choice.base, k), media.contentLength)
    ensures var path := Candidate(opts.choice.base, k);
      Locate(files, media, opts)
      == if k < INT_MAX then Location(path, SizeOf(files, path), SizeOf(files, path) > 0)
         else Location(path, SizeOf(files, Candidate(opts.choice.base, INT_MAX - 1)), false)
  {
    var base := opts.choice.base;
    if k < INT_MAX {
      SearchFindsFirst(files, base, media.contentLength, opts.resume, k);
    } else {
      SearchGivesUpIff(files, base, media.contentLength, opts.resume);
    }
  }

  /** The resume offset is the size of the file that will be appended to, unless the
      search gave up; then it is so only when two candidates happen to have equal sizes. */
  lemma OffsetIsSize(files: Files, media: Media, opts: Options)
    requires !opts.overwrite
    ensures Locate(files, media, opts).offset == SizeOf(files, Locate(files, media, opts).path)
       <==> SearchSettles(files, media, opts)
            || SizeOf(files, Candidate(opts.choice.base, INT_MAX - 1))
               == SizeOf(files, Candidate(opts.choice.base, INT_MAX))
  {
    if opts.choice.FilenameFormat? {
      SearchGivesUpIff(files, opts.choice.base, media.contentLength, opts.resume);
    }
  }

  /** The names among the first INT_MAX candidates at which a search can stop. */
  function FreeNames(files: Files, base: string, length: int): set<string> {
    set p | p in Candidates(base, INT_MAX) && !Partial(files, p, length)
  }

  lemma FreeNameSettles(files: Files, media: Media, opts: Options)
    requires opts.choice.FilenameFormat? && |FreeNames(files, opts.choice.base, media.contentLength)| > 0
    ensures SearchSettles(files, media, opts)
  {
    var p :| p in FreeNames(files, opts.choice.base, media.contentLength);
    var j :| 0 <= j < INT_MAX && Candidate(opts.choice.base, j) == p;
    assert !Partial(files, Candidate(opts.choice.base, j), media.contentLength);
  }

  /** Every file takes at most one name. */
  lemma FewFilesLeaveNames(files: Files, base: string, length: int)
    ensures |FreeNames(files, base, length)| + |files| >= INT_MAX
  {
    CandidatesDistinct(base, INT_MAX);
    SubsetSize(Candidates(base, INT_MAX), FreeNames(files, base, length) + files.Keys);
    assert |FreeNames(files, base, length) + files.Keys| <= |FreeNames(files, base, length)| + |files.Keys|;
  }

  /** So does a change of a single file. */
  lemma OneNameTaken(before: Files, after: Files, path: string, base: string, length: int)
    requires forall p :: p != path ==> SizeOf(before, p) == SizeOf(after, p)
    ensures |FreeNames(after, base, length)| >= |FreeNames(before, base, length)| - 1
  {
    var free, left := FreeNames(before, base, length), FreeNames(after, base, length);
    SubsetSize(free, left + {path});
    assert |left + {path}| <= |left| + 1;
  }

  /** The first n candidates, one byte each. */
  ghost function OneByteCandidates(base: string, n: nat): (files: Files)
    ensures forall j :: 0 <= j < n ==> Candidate(base, j) in files && files[Candidate(base, j)] == [7]
  {
    if n == 0 then map[] else OneByteCandidates(base, n - 1)[Candidate(base, n - 1) := [7]]
  }

  /** A disk on which the search gives up: INT_MAX one-byte candidates and a longer file
      behind them. The offset is then 1 although the chosen file holds two bytes. */
  lemma GivingUpMisplacesOffset(base: string, media: Media, opts: Options)
    requires opts.choice == FilenameFormat(base) && !opts.overwrite && !opts.resume
    requires media.contentLength == 9
    ensures var files := OneByteCandidates(base, INT_MAX)[Candidate(base, INT_MAX) := [7, 7]];
            Locate(files, media, opts) == Location(Candidate(base, INT_MAX), 1, false)
            && SizeOf(files, Candidate(base, INT_MAX)) == 2
  {
    var files := OneByteCandidates(base, INT_MAX)[Candidate(base, INT_MAX) := [7, 7]];
    forall j | 0 <= j < INT_MAX ensures SizeOf(files, Candidate(base, j)) == 1 {
      if Candidate(base, j) == Candidate(base, INT_MAX) {
        CandidateInjective(base, j, INT_MAX);
      }
    }
    SearchGivesUpIff(files, base, 9, false);
  }
}
