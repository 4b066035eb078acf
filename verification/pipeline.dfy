/** The `main` function: load the index, abort when there is none, then
    verify every candidate of the walk and report the three counters. */
module Pipeline {
  import opened Wrappers
  import opened Catalog
  import opened Extensions
  import opened Scanner
  import opened Digest
  import opened Engine

  /** Why a run stops before looking at any file. */
  datatype AbortReason =
    | NoDatfile        // the datfile could not be opened or parsed, or its root is empty
    | NoReferenceData  // the index is empty

  /** How a run ends: aborted with exit code 1, stopped by an uncaught
      `KeyError`, or finished with the final counters. */
  datatype RunResult = Aborted(reason: AbortReason) | Crashed(error: KeyError) | Finished(summary: Summary)

  /** Every extension's checked and skipped counts add up to its candidates,
      and bad never exceeds checked. */
  lemma RunConservation(index: Index, H: seq<byte> -> string, fs: string -> ReadOutcome, cands: seq<Candidate>)
    ensures forall e :: Get(Run(index, H, fs, Initial, cands).checked, e) + Get(Run(index, H, fs, Initial, cands).skipped, e)
                        == CandidatesWithExt(cands, e)
    ensures forall e :: Get(Run(index, H, fs, Initial, cands).bad, e) <= Get(Run(index, H, fs, Initial, cands).checked, e)
  {
    forall e
      ensures Get(Run(index, H, fs, Initial, cands).checked, e) + Get(Run(index, H, fs, Initial, cands).skipped, e)
              == CandidatesWithExt(cands, e)
      ensures Get(Run(index, H, fs, Initial, cands).bad, e) <= Get(Run(index, H, fs, Initial, cands).checked, e)
    {
      Conservation(index, H, fs, cands, e);
    }
  }

  /** Lines 101-117 for a given index: the walk is filtered by `exts` and
      every candidate is counted.  Each counter holds, per extension, the
      number of candidates whose read failed (skipped), whose hash is missing
      from `index` (bad), or that were read at all (checked).  For each listed
      extension every path carrying it is counted exactly once, as checked or
      as skipped; other extensions are counted nowhere. */
  function VerifyFiles(index: Index, exts: seq<string>, paths: seq<string>,
                       fs: string -> ReadOutcome, H: seq<byte> -> string): (s: Summary)
    ensures forall e :: Get(s.checked, e) + Get(s.skipped, e) == if e in exts then PathsWithExt(paths, e) else 0
    ensures forall e :: Get(s.skipped, e) == Tally(index, H, fs, Candidates(paths, exts), e, Skipped)
    ensures forall e :: Get(s.bad, e) == Tally(index, H, fs, Candidates(paths, exts), e, Mismatched)
    ensures forall e :: Get(s.checked, e) == Tally(index, H, fs, Candidates(paths, exts), e, Matched)
                                           + Tally(index, H, fs, Candidates(paths, exts), e, Mismatched)
    ensures forall e :: Get(s.bad, e) <= Get(s.checked, e)
    ensures Valid(s)
  {
    var cands := Candidates(paths, exts);
    RunConservation(index, H, fs, cands);
    assert forall e :: CandidatesWithExt(cands, e) == if e in exts then PathsWithExt(paths, e) else 0 by {
      forall e ensures CandidatesWithExt(cands, e) == if e in exts then PathsWithExt(paths, e) else 0 {
        CandidatesCount(paths, exts, e);
      }
    }
    assert Valid(Initial);
    Run(index, H, fs, Initial, cands)
  }

  /** Lines 85-98 and the loop: the datfile arrives parsed (`None` when
      opening or parsing failed).  A root without children is falsy and aborts
      like a missing datfile; an incomplete rom stops the run with its
      `KeyError`; an empty index aborts before any file is read.  A finished
      run was judged against the index built from the datfile. */
  function Verify(datfile: Option<Element>, extOption: string, paths: seq<string>,
                  fs: string -> ReadOutcome, H: seq<byte> -> string): (r: RunResult)
    ensures r == Aborted(NoDatfile) <==> datfile.None? || |datfile.value.children| == 0
    ensures r.Crashed? <==> datfile.Some? && |datfile.value.children| > 0 && BuildIndex(datfile.value).Failure?
    ensures r == Aborted(NoReferenceData) <==>
              datfile.Some? && |datfile.value.children| > 0 && BuildIndex(datfile.value) == Success(map[])
    ensures r.Crashed? ==> datfile.Some? && r.error == BuildIndex(datfile.value).error
    ensures r.Finished? ==> datfile.Some? && BuildIndex(datfile.value).Success? && |BuildIndex(datfile.value).value| > 0
    ensures r.Finished? ==> forall e :: Get(r.summary.bad, e) ==
                                        Tally(BuildIndex(datfile.value).value, H, fs, Candidates(paths, ExtensionList(extOption)), e, Mismatched)
    ensures r.Finished? ==> forall e :: Get(r.summary.skipped, e) ==
                                        Tally(BuildIndex(datfile.value).value, H, fs, Candidates(paths, ExtensionList(extOption)), e, Skipped)
    ensures r.Finished? ==> forall e :: Get(r.summary.checked, e) + Get(r.summary.skipped, e)
                                        == if e in ExtensionList(extOption) then PathsWithExt(paths, e) else 0
    ensures r.Finished? ==> forall e :: Get(r.summary.bad, e) <= Get(r.summary.checked, e)
    ensures r.Finished? ==> Valid(r.summary)
  {
    if datfile.None? || |datfile.value.children| == 0 then Aborted(NoDatfile)
    else
      match BuildIndex(datfile.value)
      case Failure(e) => Crashed(e)
      case Success(index) =>
        if |index| == 0 then Aborted(NoReferenceData)
        else Finished(VerifyFiles(index, ExtensionList(extOption), paths, fs, H))
  }
}
