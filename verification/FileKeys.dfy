// The file names of a job result (sdk/api/download.file.go): output_file, output_file1, output_file2 and
// so on, until a key is missing.
module FileKeys {
  import opened Base
  import Decimal

  type JobResult = map<string, string>

  datatype FilesError = JobNotFound | EmptyResult | EmptyFiles

  function Key(i: nat): string {
    if i == 0 then "output_file" else "output_file" + Decimal.Itoa(i)
  }

  lemma KeysDiffer(i: nat, j: nat)
    requires Key(i) == Key(j)
    ensures i == j
  {
    var n := |"output_file"|;
    if i == 0 || j == 0 {
      assert |Key(0)| == n && |Key(i)| == |Key(j)|;
    } else {
      assert Key(i)[n..] == Decimal.Itoa(i) && Key(j)[n..] == Decimal.Itoa(j);
      Decimal.ItoaInjective(i, j);
    }
  }

  /** The first key has no number; key i ends in the digits of i, without leading zeros. */
  lemma KeysAreNumbered(i: nat)
    ensures Key(0) == "output_file"
    ensures i > 0 ==> |Key(i)| > 11 && Key(i)[..11] == "output_file" && Key(i)[11] != '0'
    ensures i > 0 ==> Decimal.AllDigits(Key(i)[11..]) && Decimal.Value(Key(i)[11..]) == i
  {
    if i > 0 {
      Decimal.ItoaLeads(i);
      Decimal.ValueOfItoa(i);
      assert Key(i)[11..] == Decimal.Itoa(i);
    }
  }

  ghost function FirstKeys(n: nat): (ks: seq<string>)
    ensures |ks| == n && forall i :: 0 <= i < n ==> ks[i] == Key(i)
  {
    seq(n, i requires 0 <= i < n => Key(i))
  }

  /** The first `n` keys are all there. */
  ghost predicate Unbroken(m: JobResult, n: nat) {
    forall i :: 0 <= i < n ==> Key(i) in m
  }

  /** A finite map holds no more keys than it has entries. */
  lemma RunIsBounded(m: JobResult, n: nat)
    requires Unbroken(m, n)
    ensures n <= |m|
  {
    hide Key;
    var ks := FirstKeys(n);
    forall i, j | 0 <= i < j < n ensures ks[i] != ks[j] {
      if ks[i] == ks[j] {
        KeysDiffer(i, j);
      }
    }
    DistinctSize(ks);
    SubsetIsSmaller(Elements(ks), m.Keys);
  }

  /** The files are those under the longest unbroken run of keys, in order. */
  ghost predicate LongestRun(m: JobResult, files: seq<string>) {
    && Unbroken(m, |files|)
    && Key(|files|) !in m
    && forall i :: 0 <= i < |files| ==> files[i] == m[Key(i)]
  }

  lemma EndsAtGap(m: JobResult, gap: nat, n: nat)
    ensures Unbroken(m, n) && Key(gap) !in m ==> n <= gap
  {
    if Unbroken(m, n) && gap < n {
      assert Key(gap) in m;
    }
  }

  /** No run is longer, and there is only one answer. */
  lemma LongestRunIsLongest(m: JobResult, files: seq<string>, n: nat, files': seq<string>)
    requires LongestRun(m, files)
    ensures Unbroken(m, n) ==> n <= |files|
    ensures LongestRun(m, files') ==> files' == files
  {
    hide Key;
    EndsAtGap(m, |files|, n);
    EndsAtGap(m, |files|, |files'|);
    EndsAtGap(m, |files'|, |files|);
  }

  method GetFilesByJobId(jobs: seq<Option<JobResult>>) returns (r: Result<seq<string>, FilesError>, ghost looks: nat)
    ensures r == Err(JobNotFound) <==> jobs == []
    ensures r == Err(EmptyResult) <==> jobs != [] && jobs[0].None?
    ensures r == Err(EmptyFiles) <==> jobs != [] && jobs[0].Some? && Key(0) !in jobs[0].value
    ensures r.Ok? ==> jobs != [] && jobs[0].Some? && LongestRun(jobs[0].value, r.value) && r.value != []
    ensures jobs != [] && jobs[0].Some? ==> looks <= |jobs[0].value| + 1
  {
    hide Key;
    looks := 0;
    if |jobs| == 0 {
      return Err(JobNotFound), 0;
    }
    var job := jobs[0];
    if job.None? {
      return Err(EmptyResult), 0;
    }
    var result := job.value;
    var files: seq<string> := [];
    var i := 0;
    RunIsBounded(result, 0);
    while true
      invariant i == |files| == looks <= |result| && Unbroken(result, i)
      invariant forall j :: 0 <= j < i ==> files[j] == result[Key(j)]
      decreases |result| - i
    {
      var key := Key(i);
      looks := looks + 1;
      if key in result {
        files := files + [result[key]];
        i := i + 1;
        RunIsBounded(result, i);
      } else {
        break;
      }
    }
    if |files| == 0 {
      return Err(EmptyFiles), looks;
    }
    return Ok(files), looks;
  }
}
