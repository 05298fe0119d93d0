# A verified model of cclive

cclive downloads media named on its command line. This project models the parts of it that
hold state or loop over text, and proves what they keep over whole runs:

- **Downloading** (`Decimal`, `Target`, `Transfer`, `File`, `Get`, `Runs`, `OnePath`, `Complete`). The file system is a
  map from paths to bytes. `Target` says which of `base, base.0, base.1, ...` is written and
  from which offset; `Transfer` is one attempt: how the file is opened, the write and progress
  callbacks, and what `file::write` makes of the outcome; `Get` is the retry loop. The classes
  in `File` and the methods of `Get` work in place and are tied to these functions. `Runs` holds
  the results about all runs: resuming is safe, nothing is overwritten, the retry protocol;
  `OnePath` is about runs that write to a single name, `Complete` about files taken for complete.
- **SIGUSR1** (`SignalRace`). The signal handler interleaved with the two accesses of the
  progress callback, and why a transfer in `Transfer` may take the callback as one step.
- **Input** (`Dedup`, `Input`). The recursive expansion of URL lists, exactly when it ends, and the
  in-place de-duplication of its result.
- **Text** (`Common`, `Regex`, `Tokenizer`, `Template`, `Command`, `Rules`, `Capture`, `Trim`). `Regex` is a
  small backtracking matcher; the fixed patterns of the program are values of its `Pattern`
  type, and each is proved to match what it is used for. Patterns given by the user appear
  only in `Capture`, as an arbitrary match function.
- **Progress** (`ProgressBar`, `Meter`). Throttling, the final correction, the dot-line layout,
  and the meter with the wrap-around of `size_t`.

## Assumptions

- Chunks handed to `write_cb` carry arbitrary bytes. Where a result needs a well-behaved server
  it requires `HonestNet`: the bytes are consecutive from the requested offset on (section 14 of
  RFC 9110), and `CURLE_OK` with 200 or 206 means that the whole rest was delivered. The code
  does not check this; `StaysPrefixIff` gives the exact condition for every attempt, and
  `ErrorPageEndsInFile` a run that ends normally with an error page at the head of the file.
- libcurl may report any code of its own. With a write error that does not come from `write_cb`
  the error text is empty unless the stream failed, and the attempt counts as a success (`OutcomeIff`,
  `ForeignWriteErrorSucceeds`).
- The functions of `Input.Env` answer the same every time they are asked: list files do not
  change while they are being read.
- A failing stream has stored some prefix of the chunk at hand, bytes that closing the stream
  still drains included.
- Nothing else changes the files while `get` runs; between invocations, `SessionIsSafe` speaks
  of the files as the previous one left them.
- `\s` is the white space of PCRE 8.02: space, tab, newline, form feed, carriage return.

Where documentation and code differ the model follows the code. The manual says that retrying
is skipped for HTTP 400 and over; the code does so for 400 to 500 only, and 503 is retried.

## Model

| member | source | states |
|---|---|---|
| Decimal.NumeralRoundTrip | src/cc/file.cpp:345-346 | the digits appended to a file name read back as the counter |
| Decimal.CandidateNumbered | src/cc/file.cpp:323-348 | the first name is the base; the next ones are the base, a dot and the digits of 0, 1, 2, ... |
| Decimal.CandidateInjective | src/cc/file.cpp:343-348 | different counters give different file names, and none gives the base name |
| Target.StopIndex | src/cc/file.cpp:329-349 | all candidates before the one the search stops at were passed over, and that one is not |
| Target.SearchFindsFirst | src/cc/file.cpp:329-349 | the search picks the first candidate that is not strictly partial (any candidate with --continue) |
| Target.FreshLocated | src/cc/file.cpp:325-350 | without --continue and --overwrite: path, offset and nothing-to-do flag, told from the sizes of the candidates |
| Target.SearchIsShort | src/cc/file.cpp:329-349 | with n existing files the search needs at most n + 1 probes |
| Target.SearchGivesUpIff | src/cc/file.cpp:329-349 | the search runs out of its INT_MAX turns exactly when all these candidates are partial and --continue is off |
| Target.OffsetIsSize | src/cc/file.cpp:286-355 | the offset equals the size of the file at the chosen path exactly when the search settles (or two sizes coincide) |
| Target.GivingUpMisplacesOffset | src/cc/file.cpp:345-349 | a disk on which the search gives up and the offset belongs to another file |
| OnePath.OnePathLocated | src/cc/file.cpp:292-354 | with --output-file, --overwrite or --continue: the path is the name given, without a counter, the offset its size, or 0 with --overwrite, and nothing is to do exactly when it holds as many bytes as announced |
| OnePath.OnePathRun | src/cc/file.cpp:119-155 | every write of such a run goes to that path, from that offset, adds to what it is to keep, and changes no other file; nor does the run |
| OnePath.OverwriteReplaces | src/cc/file.cpp:325-354 | with --overwrite every write of a run begins at 0 of the path, and one that ends with 200 or 206 from a well-behaved server leaves exactly the media, whatever was there |
| OnePath.OverwriteEndsComplete | src/cc/file.cpp:325-354 | so does the whole run after such a write |
| Complete.TrustsRightlyIff | src/cc/file.cpp:296-335 | "media retrieved completely already" is true on every disk of prefixes exactly when --overwrite is given or the announced length is at least the real one, and not 0 with --output-file; without it a media of one byte is safe as well |
| Complete.StopsEarly | src/cc/file.cpp:296-335 | otherwise a disk, an empty one with --output-file and length 0, on which it is not |
| Complete.CompleteIsLeftAlone | src/cc/get.cpp:47-57 | get on a complete file, resuming, changes nothing and throws at once, exactly when the announced length is not too large (and the file not an empty one without --output-file) |
| File.FileNameIff | src/cc/file.h:68-72 | the name is what stands behind the last slash of the path |
| File.MediaFile.constructor | src/cc/file.cpp:52-63 | a new cc::file holds the path, offset and nothing-to-do flag that the functions of Target give for the disk as it is |
| File.MediaFile.Init | src/cc/file.cpp:286-355 | the probing loop ends at the first stopping candidate, throws exactly when nothing is to do, and keeps name and path together |
| File.MediaFile.Write | src/cc/file.cpp:204-261 | the whole effect of an attempt on disk, signal flag, curl code and outcome |
| File.WriteData.OpenFile | src/cc/file.cpp:119-134 | truncates with --overwrite, keeps the file when resuming, and empties it otherwise |
| File.WriteData.WriteCb | src/cc/file.cpp:141-155 | appends the chunk, or a prefix of it and sets the error text; returns 0 from then on |
| File.WriteData.ProgressCb | src/cc/file.cpp:157-165 | returns non-zero exactly when the flag was set, and clears it |
| File.WriteData.EasyPerform | src/cc/file.cpp:215-215 | calls back until a callback objects; the result agrees with Transfer.Perform |
| File.PrintError | src/cc/progressbar.h:161-184 | throws on 400 to 500, and otherwise reports success only for an abort |
| Transfer.AttemptIsSafe | src/cc/file.cpp:119-155 | one attempt keeps the target a prefix of the media, never shortens it without --overwrite, touches no other file, and completes it on 200 or 206 |
| Transfer.PerformStores | src/cc/file.cpp:141-155 | what a transfer adds to the file are the chunks up to the first that the stream does not take or the first callback that aborts |
| Transfer.StoredIsDelivered | src/cc/file.cpp:141-155 | that is a prefix of what was delivered, and all of it when no callback stops the transfer, even after a failure on an empty chunk |
| Transfer.StaysPrefixIff | src/cc/file.cpp:141-155 | however an attempt ends, it leaves a prefix of the media exactly when the bytes it stored belong behind the offset |
| Transfer.CutOff | src/cc/file.cpp:141-165 | a transfer ends with the first callback that objects: a failing write keeps its part of the chunk, a set flag aborts and is used up; all before it is stored |
| Transfer.OutcomeIff | src/cc/progressbar.h:161-184 | for every plan, exactly when write succeeds (200 or 206 without an error, an abort outside 400 to 500, or a write error of libcurl after the stream took every chunk), throws (any failure with 400 to 500), asks for a retry (any other failure), or cannot open the file |
| Transfer.OpenFailedChangesNothing | src/cc/file.cpp:204-213 | in the last case files and signal flag are as before |
| Transfer.AttemptFlagIff | src/cc/file.cpp:157-165 | a set flag outlives an attempt exactly when the attempt is not aborted |
| Transfer.ForeignWriteErrorSucceeds | src/cc/file.cpp:240-256 | such an attempt: a 503 answer cut short by a write error of libcurl, reported as a success |
| Transfer.PendingAborts | src/cc/file.cpp:157-165 | a pending signal stops the transfer at its next progress call and is used up |
| Get.GetOnce | src/cc/get.cpp:49-87 | the loop body does exactly what Get.Iterate says: probe, wait, write, exec |
| Get.GetMedia | src/cc/get.cpp:37-89 | get changes disk, flag and log exactly as Get.Run says, without overflowing the retry counter |
| Runs.RunIsSafe | src/cc/get.cpp:47-88 | every write of every run is safe: targets stay prefixes, sizes never fall, a 200 or 206 leaves the media complete |
| Runs.SessionIsSafe | src/cc/file.cpp:292-304 | the same over any series of resuming invocations; a complete file stays complete |
| Runs.ErrorPageEndsInFile | src/cc/file.cpp:236-250 | a whole run: the page of a 503 answer is stored, the retry resumes behind it, and get ends normally with a file that is not the media |
| Runs.NothingClobbered | src/cc/file.cpp:327-350 | without --overwrite, -O and --continue no file that ever held a byte is changed by a later write, and the candidate index never falls and rises after a partial write |
| Runs.FewFilesSettle | src/cc/file.cpp:327-350 | fewer than INT_MAX files, less one for each retry, are enough for that |
| Runs.FreshAttempt | src/cc/file.cpp:327-350 | one such attempt keeps all files that hold a byte exactly when the search settles, the name it gave up at is free, or nothing is stored; the index never falls |
| Runs.WritesBounded | src/cc/get.cpp:45-88 | at most max_retries + 1 writes, and a further one only after writes that returned false, never after an abort or an error of 400 to 500 |
| Runs.RetryProtocol | src/cc/get.cpp:47-88 | every write but the first comes right after a wait of retry_wait, which follows a fresh probe; the commands come last and at most once |
| Runs.RunEndFits | src/cc/get.cpp:47-88 | how a run ends fits what it did: all retries made, a write that returned true, nothing to do, or an error; commands are run exactly in the second and third case |
| Runs.RetriedUnlessUsedUp | src/cc/get.cpp:47-88 | a write that returned false, as all writes of lost transfers do, is followed by a probe or was the last retry; one that throws is the last event |
| Runs.LostIsRetried | src/cc/progressbar.h:174-183 | while retries are left, a write that returned false is followed by another probe; among them is every transfer that fails outside 400 to 500 with a code other than an abort or a write error |
| Runs.RunIsContinuous | src/cc/get.cpp:47-88 | every probe and write of the log fits the disk that the one before left, up to the final disk |
| Runs.FlagOutlivesRun | src/cc/file.cpp:157-165 | a flag set when a run begins is used up only by an aborted transfer of the run |
| SignalRace.SignalsAccounted | src/cc/sig.h:47-61 | signals received are aborts, plus one pending, plus those absorbed by a pending one, in every reachable state |
| SignalRace.AtomicCallbackSuffices | src/cc/file.cpp:157-165 | every interleaving has the aborts and final flag of a run in which the callback is one step |
| SignalRace.NextCallbackAborts | src/cc/file.cpp:157-165 | once the flag is set the next callback aborts once, whatever signals come before or between its two accesses |
| SignalRace.SignalLost | src/cc/file.cpp:159-163 | a signal between test and clear is lost |
| SignalRace.TransferIsCoarseRun | src/cc/file.cpp:157-165 | over all its callbacks a transfer leaves the flag as the coarse run does, and is aborted exactly when that counts an abort |
| SignalRace.InterleavedTransfer | src/cc/file.cpp:157-165 | for every interleaving of the handler with the callbacks of one transfer, signals between test and clear included: the transfer is aborted exactly when a callback clears the flag, and leaves the flag as the one-step callback does |
| SignalRace.EveryRunIsCalls | src/cc/file.cpp:157-165 | every interleaving amounts to some series of one-step callbacks, repeated signals counted once |
| SignalRace.EveryInterleaving | src/cc/file.cpp:157-165 | so over any number of transfers, one after the other, every interleaving aborts as many as the one-step callbacks do and leaves the same flag |
| SignalRace.AbortedIff | src/cc/file.cpp:157-165 | unless a write fails, a transfer is aborted exactly when its callbacks taken together would clear a set flag |
| Dedup.Remove | src/cc/input.h:60-60 | std::remove leaves the elements other than the value, in order, in front |
| Dedup.Duplicates | src/cc/input.h:55-64 | the retained prefix is exactly the first occurrences, in their order |
| Dedup.CompactedKeepsFirst | src/cc/input.h:55-64 | nested removal equals the filter that keeps what was not seen before |
| Dedup.CompactedIsSet | src/cc/input.h:55-72 | no duplicates, and the same elements |
| Dedup.DistinctStays | src/cc/input.h:55-72 | a list without duplicates is unchanged |
| Input.DetermineInput | src/cc/input.h:120-136 | appends the URLs an entry stands for up to its first bad one, and reports that one; asks only that what is reached of the lists is bounded |
| Input.ExtractUris | src/cc/input.h:88-103 | the same for a list text |
| Input.ResolveEach | src/cc/input.h:81-87 | the same for several entries; nothing behind the first that fails is looked at |
| Input.Parse | src/cc/input.h:45-52 | the first error in depth-first order, with a true reason, or the first occurrences of all URLs: non-empty, distinct, http or https only; http and https URLs alone are never refused |
| Input.AcceptedIff | src/cc/input.h:105-136 | an argument or line stands for itself exactly if it is an http or https URL, for a list exactly if it names one that can be read, by file URI or, as an argument only, by path; all else is an error |
| Input.ListStandsForItsLines | src/cc/input.h:88-126 | naming a list is as good as giving its lines on standard input |
| Input.MediaAccepted | src/cc/input.h:127-128 | http and https URLs give themselves, in order, without an error |
| Input.ErrorsJustified | src/cc/input.h:105-136 | nothing is refused that is an http or https URL; the message says which check failed |
| Input.ItemsByWalk | src/cc/input.h:88-136 | the recursion finds the items in the order of a walk with an explicit stack that stops at the first error |
| Input.BoundedIff | src/cc/input.h:88-118 | lists are read at most d deep exactly when no chain of more than d references starts in the entries that are reached |
| Input.ResolvableIff | src/cc/input.h:45-52 | the recursion gets by with some depth, as Parse asks, exactly when these chains are bounded |
| Input.ResolverEndsIff | src/cc/input.h:88-136 | the walk ends exactly when these chains are bounded |
| Input.SelfReferenceNeverEnds | src/cc/input.h:105-118 | a list that names itself, with no failing entry in front, is read forever |
| Input.BadEntryEnds | src/cc/input.h:88-103 | an entry that fails ends the recursion, whatever is behind it, a cycle included |
| Regex.ReplaceStep | src/cc/exec.cpp:112-112 | global replacement, read one position at a time |
| Tokenizer.ArgumentMatch | src/cc/exec.cpp:129-129 | the pattern takes quoted text up to the next quote of either kind on the line, or else a run of non-space |
| Tokenizer.Tokenize | src/cc/exec.cpp:102-115 | the consuming loop ends and yields the token list |
| Tokenizer.TokensConserve | src/cc/exec.cpp:102-115 | apart from white space and quotes every character of the command ends up in the arguments, in order |
| Tokenizer.TokensPlain | src/cc/exec.cpp:112-113 | no argument holds a quote or a newline |
| Tokenizer.NoTokensIff | src/cc/exec.cpp:128-130 | there is a program to run exactly when the command is not blank |
| Tokenizer.RoundTrip | src/cc/exec.cpp:102-115 | quoted arguments joined by spaces are read back, empty ones included, exactly when none holds a quote or a newline |
| Tokenizer.QuotesAlike | src/cc/exec.cpp:112-129 | single and double quotes may be exchanged anywhere without changing the arguments |
| Regex.CodesOfClasses | src/cc/exec.cpp:129-129 | which characters are white space and quotes |
| Template.ThreePassesAreOne | src/cc/exec.cpp:124-126 | the three passes in their order equal one simultaneous substitution when no pass makes a sequence for a later one arise |
| Template.MergeIff | src/cc/exec.cpp:124-126 | for a single pass that condition is exact: it is what makes the pass mergeable for all values of the later keys |
| Template.TemplateIff | src/cc/exec.cpp:124-126 | the passes equal the simultaneous substitution for all values without percent sign and backslash exactly when the template has neither %%a nor %%b, a and b being the keys put in first |
| Template.OrderIff | src/cc/exec.cpp:124-126 | the order of the passes does not matter, for all values without percent sign and backslash, exactly when the template has none of %%a, %%b and %%c |
| Template.UnescapedOrderFree | src/cc/exec.cpp:124-126 | nor does it on such templates for values with percent signs that begin no sequence |
| Template.NameBeforePathDiffers | src/cc/exec.cpp:124-126 | a name with a sequence in it for which the order matters, though the passes in their order equal one substitution |
| Template.HarmlessIff | src/cc/exec.cpp:124-126 | a value may be put into every template without %%k exactly when it does not end in a percent sign and holds no sequence of a later key |
| Template.UnescapedSettles | src/cc/exec.cpp:124-126 | harmless values make no sequence arise in any template without %%a and %%b |
| Template.UnsettledDiffers | src/cc/exec.cpp:124-126 | if the first value makes a sequence arise, the passes lose percent signs once the later values are empty |
| Template.LiteralIff | src/cc/file.cpp:308-320 | a value is inserted as it is exactly when it has no backslash |
| Template.DoubledIsLiteral | src/cc/file.cpp:308-320 | with doubled backslashes every value is inserted as it is; a backslash and 0 insert the sequence, other backslashes end the value |
| Template.ExpandFileName | src/cc/file.cpp:307-320 | %s, %i and %t are replaced at once, each by its value, unless a sequence arises; else in this order |
| Template.DoublePercentDiffers | src/cc/exec.cpp:124-126 | a template with %% on which the passes interfere |
| Template.PercentInPathDiffers | src/cc/exec.cpp:124-126 | a path with a sequence in it on which the passes interfere |
| Template.PercentInPathHarmless | src/cc/exec.cpp:124-126 | a path with another percent sign in it is put in like any other, in every command without %%f and %%n and with every harmless name |
| Command.PrepareArguments | src/cc/exec.cpp:122-129 | the arguments hold all of the expanded command but white space and quotes, no argument holds a quote or newline, and quoted arguments stay whole |
| Command.ArgumentsStayWhole | src/cc/exec.cpp:122-130 | quoted arguments reach the program whole, each with its sequences expanded |
| Command.ArgumentsIff | src/cc/exec.cpp:122-130 | they do for all ordinary paths, names and titles exactly when the command has neither %%f nor %%n |
| Rules.SplitSubstIff | src/cc/re.cpp:127-141 | a substitution rule is split at the last two slashes of its line: the pieces are those printed exactly when the last two hold no slash |
| Rules.SplitFilterIff | src/cc/re.cpp:155-169 | a filter rule is split at the last slash of its line |
| Rules.SplitIff | src/cc/re.cpp:199-205 | a rule is read as the substitution or filter whose printed form is its line |
| Rules.PrintSplitRoundTrip | src/cc/re.cpp:199-205 | a printed rule without newline is read back exactly when its later pieces hold no slash |
| Rules.SplitAcceptsIff | src/cc/re.cpp:199-205 | a rule is accepted exactly if it is one line that begins with s/ and has two more slashes, or begins with a slash and has one more |
| Capture.FilterGlobal | src/cc/re.cpp:176-188 | the consuming loop replaces the title by its captures in order, whenever it ends on this title; an empty title stays empty |
| Capture.CopiesInOrderIff | src/cc/re.cpp:176-188 | the result consists of characters of the title, at places that increase exactly when what each turn copies lies in front of what later turns copy |
| Capture.CapturesAreSubsequence | src/cc/re.cpp:176-188 | then the filtered title is a subsequence of the title |
| Capture.SubsequenceIff | src/cc/re.cpp:176-188 | and only then, on a title in which no character occurs twice |
| Capture.InsideIsApart | src/cc/re.cpp:176-188 | a pattern whose group lies inside its matches always does so |
| Capture.LookAheadRepeats | src/cc/re.cpp:186-187 | a group in a lookahead that does not, and a result longer than the title |
| Capture.EndsIff | src/cc/re.cpp:186-187 | the loop ends exactly when it meets no empty match |
| Capture.AlwaysEndsIff | src/cc/re.cpp:186-187 | the loop ends on every text exactly when the pattern never matches the empty text |
| Trim.TrimTitle | src/cc/re.cpp:207-212 | the three substitutions compute Trim.Trimmed, the empty title included |
| Trim.LeadingRule | src/cc/re.cpp:209-209 | the first rule is split into pattern, replacement and flags as meant |
| Trim.TrailingRule | src/cc/re.cpp:210-210 | the same for the second rule |
| Trim.DoubledRule | src/cc/re.cpp:211-211 | the same for the third rule, with its g flag |
| Trim.TrimmedIsNormal | src/cc/re.cpp:207-212 | no white space at the ends, none next to another |
| Trim.NormalStays | src/cc/re.cpp:207-212 | a title that is normal already is unchanged |
| Trim.TrimIdempotent | src/cc/re.cpp:207-212 | trimming twice is trimming once |
| Trim.TrimKeepsWords | src/cc/re.cpp:207-212 | the words of the title survive, in order and apart |
| ProgressBar.Progress.Update | src/cc/progressbar.h:86-159 | the whole effect of an update, and the numbers shown, if any |
| ProgressBar.Progress.Finish | src/cc/progressbar.h:187-201 | the correction of the length and the last render |
| ProgressBar.Progress.RenderDotline | src/cc/progressbar.h:229-257 | the dots and counter of one render |
| ProgressBar.TransferShowsTicks | src/cc/progressbar.h:86-146 | told from the ticks alone: those are shown that report bytes and come at least an interval after the last one shown, each with its own count and rounded percentage; the last render shows the larger of the announced length and what was shown |
| ProgressBar.FailedShowsNothing | src/cc/progressbar.h:88-89 | after a failure nothing is shown |
| ProgressBar.ProgressNeverGoesBack | src/cc/progressbar.h:134-144 | size and percentage never fall, the percentage stays in 0..100 and ends at 100 |
| ProgressBar.RendersAreSpaced | src/cc/progressbar.h:98-102 | the k-th render comes no earlier than k update intervals after the start |
| ProgressBar.TransferPrintsFullLines | src/cc/progressbar.h:229-257 | a transfer that does not fail prints only full lines of ten groups of three dots with numbers, the last one included |
| Meter.Globals.DefaultHandler | src/cc/sig.h:47-61 | each signal sets its flag and nothing clears one |
| Meter.Globals.CalcTermSpaceleft | src/cc/sig.h:71-82 | the width is asked for once, or every time after a SIGWINCH; the space wraps around |
| Meter.AskedAgainIff | src/cc/sig.h:71-82 | over any series of signals and renders: the first answer of the terminal is kept until a SIGWINCH, after which every new answer counts, or 80 without one |
| Meter.RenderMeter | src/cc/progressbar.h:305-315 | the loop over the stream position fills exactly the cells between the brackets |
| Meter.RenderNormal | src/cc/progressbar.h:274-303 | what is printed, if anything |
| Meter.GuardIff | src/cc/progressbar.h:295-301 | the guard, wrap-around included, passes exactly when the text and one column fit |
| Meter.LineLayout | src/cc/progressbar.h:298-315 | the line is the bracketed meter, full cells first, the numbers, and a newline exactly when the transfer is done |
| Meter.LineWidth | src/cc/progressbar.h:295-315 | the printed line is exactly as wide as the terminal when two columns are left, and one too wide when one is |
| Meter.FullCells | src/cc/progressbar.h:305-315 | the number of full cells is the share of the space, at most the space less one |

## Left out

- NothingClobbered: asks for more candidates that are not partial than retries are left, since a search that gives up appends to a file it has not looked at (GivingUpMisplacesOffset); for a single attempt FreshAttempt is exact.
- RunIsSafe: asks for the same when neither --continue, --output-file nor --overwrite is given; with any of them there is no bound.
- ThreePassesAreOne: asks that no sequence arises; where one does, particular later values can still make the passes agree, and MergeIff, TemplateIff, OrderIff and HarmlessIff are exact over all values.
- CapturesAreSubsequence: exact about places (CopiesInOrderIff) and on titles without repeated characters (SubsequenceIff); on others equal characters can make it hold by coincidence.
- FilterGlobal: requires that no turn of the loop on this title meets an empty match, since the loop otherwise does not end (EndsIff).
- DetermineInput: requires a bound on the depth of the lists it reaches; the recursion of the program ends exactly when there is one (ResolverEndsIff). Running out of stack on deep lists is not modelled.
- libcurl, libquvi, GLib and PCRE for user patterns: they appear as plans of callbacks, as the media, as the functions of Input.Env and as a match function.
- Sizes as double: byte counts are integers, so nothing is said about sizes beyond 2 to the 53.
- Texts of error messages, number and ETA formatting, the simple progress mode, and modification times (--timestamp).
- The countdown that cc::wait prints; a wait is a single event.
- The non-global filter and substitution with a user's pattern, a single library call each.
- The invalid UTF-8 case, in which PCRE refuses to match at all.
- Directories, permissions and other processes: opening a file may fail, and that is all that is said about them.
- fork, execvp and waitpid in exec.cpp, option parsing, application.cpp, background.cpp and log.h.
