/** The verification loop: every candidate is read, hashed, looked up in the
    index and counted per extension as checked, bad or skipped. */
module Engine {
  import opened Catalog
  import opened Scanner
  import opened Digest

  /** What opening and reading a candidate gave: an `OSError` or its bytes. */
  datatype ReadOutcome = ReadFailed | Read(content: seq<byte>)

  /** The fate of one candidate. */
  datatype Verdict = Skipped | Matched | Mismatched

  /** A `collections.defaultdict(int)` keyed by extension. */
  type Counter = map<string, nat>

  /** The value `counter[k]` reads: 0 for a key never incremented. */
  function Get(counter: Counter, k: string): nat
  {
    if k in counter then counter[k] else 0
  }

  /** Only keys that were incremented are present, each with a positive count. */
  predicate Touched(counter: Counter)
  {
    forall k :: k in counter ==> counter[k] > 0
  }

  /** `counter[k] += 1`: inserts `k` on first use and changes no other key. */
  function Bump(counter: Counter, k: string): (r: Counter)
    ensures Get(r, k) == Get(counter, k) + 1
    ensures forall j :: j != k ==> Get(r, j) == Get(counter, j)
    ensures r.Keys == counter.Keys + {k}
    ensures Touched(counter) ==> Touched(r)
  {
    counter[k := Get(counter, k) + 1]
  }

  /** The three counters of lines 82-84. */
  datatype Summary = Summary(checked: Counter, bad: Counter, skipped: Counter)

  /** The counters before the first candidate. */
  const Initial: Summary := Summary(map[], map[], map[])

  /** No counter holds a key that was never incremented. */
  predicate Valid(s: Summary)
  {
    Touched(s.checked) && Touched(s.bad) && Touched(s.skipped)
  }

  /** Lines 104-113: a failed read skips the candidate; a complete read is a
      match when the chunked digest of the content is a key of the index.  The
      digest is the hash of the whole content, so the chunking is invisible. */
  function Classify(index: Index, H: seq<byte> -> string, outcome: ReadOutcome): (v: Verdict)
    ensures v == Skipped <==> outcome.ReadFailed?
    ensures v == Matched <==> outcome.Read? && H(outcome.content) in index
    ensures v == Mismatched <==> outcome.Read? && H(outcome.content) !in index
  {
    match outcome
    case ReadFailed => Skipped
    case Read(content) =>
      if FileDigest(H, content, DefaultChunkSize) in index then Matched else Mismatched
  }

  /** Lines 111 and 113-117: a skip bumps `skipped` only; a read bumps
      `checked`, and `bad` as well on a mismatch.  So exactly one of `skipped`
      and `checked` grows, by one, and other extensions are untouched. */
  function Record(s: Summary, ext: string, v: Verdict): (s': Summary)
    ensures Get(s'.skipped, ext) + Get(s'.checked, ext) == Get(s.skipped, ext) + Get(s.checked, ext) + 1
    ensures Get(s'.skipped, ext) == Get(s.skipped, ext) + (if v == Skipped then 1 else 0)
    ensures Get(s'.bad, ext) == Get(s.bad, ext) + (if v == Mismatched then 1 else 0)
    ensures v == Skipped ==> s'.checked == s.checked && s'.bad == s.bad
    ensures v != Skipped ==> s'.skipped == s.skipped
    ensures v == Matched ==> s'.bad == s.bad
    ensures forall e :: e != ext ==> Get(s'.checked, e) == Get(s.checked, e)
    ensures forall e :: e != ext ==> Get(s'.bad, e) == Get(s.bad, e)
    ensures forall e :: e != ext ==> Get(s'.skipped, e) == Get(s.skipped, e)
    ensures Valid(s) ==> Valid(s')
  {
    match v
    case Skipped => s.(skipped := Bump(s.skipped, ext))
    case Matched => s.(checked := Bump(s.checked, ext))
    case Mismatched => s.(bad := Bump(s.bad, ext), checked := Bump(s.checked, ext))
  }

  /** Number of candidates with extension `e` whose verdict is `v`, when
      `fs` gives the outcome of reading each path. */
  function Tally(index: Index, H: seq<byte> -> string, fs: string -> ReadOutcome,
                 cands: seq<Candidate>, e: string, v: Verdict): (n: nat)
    ensures n <= CandidatesWithExt(cands, e)
  {
    if |cands| == 0 then 0
    else
      (if cands[0].ext == e && Classify(index, H, fs(cands[0].path)) == v then 1 else 0)
      + Tally(index, H, fs, cands[1..], e, v)
  }

  /** Lines 101-117: the loop over the candidates in order, from counters `s`.
      Each counter grows by the number of candidates of that extension with
      the corresponding verdict. */
  function Run(index: Index, H: seq<byte> -> string, fs: string -> ReadOutcome,
               s: Summary, cands: seq<Candidate>): (r: Summary)
    ensures forall e :: Get(r.skipped, e) == Get(s.skipped, e) + Tally(index, H, fs, cands, e, Skipped)
    ensures forall e :: Get(r.bad, e) == Get(s.bad, e) + Tally(index, H, fs, cands, e, Mismatched)
    ensures forall e :: Get(r.checked, e) == Get(s.checked, e) + Tally(index, H, fs, cands, e, Matched)
                                                                + Tally(index, H, fs, cands, e, Mismatched)
    ensures Valid(s) ==> Valid(r)
    decreases |cands|
  {
    if |cands| == 0 then s
    else
      var c := cands[0];
      var s1 := Record(s, c.ext, Classify(index, H, fs(c.path)));
      var r := Run(index, H, fs, s1, cands[1..]);
      assert forall e :: Get(r.skipped, e) == Get(s.skipped, e) + Tally(index, H, fs, cands, e, Skipped) by {
        forall e ensures Get(r.skipped, e) == Get(s.skipped, e) + Tally(index, H, fs, cands, e, Skipped) {
          assert Get(s1.skipped, e) == Get(s.skipped, e) + (if c.ext == e && Classify(index, H, fs(c.path)) == Skipped then 1 else 0);
        }
      }
      assert forall e :: Get(r.bad, e) == Get(s.bad, e) + Tally(index, H, fs, cands, e, Mismatched) by {
        forall e ensures Get(r.bad, e) == Get(s.bad, e) + Tally(index, H, fs, cands, e, Mismatched) {
          assert Get(s1.bad, e) == Get(s.bad, e) + (if c.ext == e && Classify(index, H, fs(c.path)) == Mismatched then 1 else 0);
        }
      }
      assert forall e :: Get(r.checked, e) == Get(s.checked, e) + Tally(index, H, fs, cands, e, Matched)
                                              + Tally(index, H, fs, cands, e, Mismatched) by {
        forall e ensures Get(r.checked, e) == Get(s.checked, e) + Tally(index, H, fs, cands, e, Matched)
                                              + Tally(index, H, fs, cands, e, Mismatched) {
          var v := Classify(index, H, fs(c.path));
          assert Get(s1.checked, e) == Get(s.checked, e) + (if c.ext == e && v != Skipped then 1 else 0);
        }
      }
      r
  }

  /** The three verdicts partition the candidates of each extension. */
  lemma {:induction false} TallyPartition(index: Index, H: seq<byte> -> string, fs: string -> ReadOutcome,
                                          cands: seq<Candidate>, e: string)
    ensures Tally(index, H, fs, cands, e, Skipped) + Tally(index, H, fs, cands, e, Matched)
            + Tally(index, H, fs, cands, e, Mismatched) == CandidatesWithExt(cands, e)
  {
    if |cands| > 0 {
      TallyPartition(index, H, fs, cands[1..], e);
    }
  }

  /** After the loop, for every extension: checked plus skipped is the number
      of candidates of that extension, bad never exceeds checked, and an
      extension no candidate carries appears in no counter. */
  lemma Conservation(index: Index, H: seq<byte> -> string, fs: string -> ReadOutcome, cands: seq<Candidate>, e: string)
    ensures var r := Run(index, H, fs, Initial, cands);
            && Get(r.checked, e) + Get(r.skipped, e) == CandidatesWithExt(cands, e)
            && Get(r.bad, e) <= Get(r.checked, e)
            && (CandidatesWithExt(cands, e) == 0 ==> e !in r.checked && e !in r.bad && e !in r.skipped)
  {
    TallyPartition(index, H, fs, cands, e);
    var r := Run(index, H, fs, Initial, cands);
    assert Valid(Initial);
  }
}
