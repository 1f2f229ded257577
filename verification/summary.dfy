/** The text and the counts `print_stats` reports. */
module Summary {
  import opened Wrappers
  import Seqs
  import opened Streams

  const NoWorries := "No worries!"
  const AffectedPrefix := "The following files were affected: "

  /** `files_affected_summary`: the reassurance when the stream has no mismatch,
      otherwise the affected base names joined with `", "` in list order. */
  function FilesAffectedSummary(stats: Stats, s: Stream): (r: string)
    ensures r == NoWorries <==> |stats.Get(s).mismatches| == 0
    ensures |stats.Get(s).mismatches| > 0 ==> AffectedPrefix <= r
    ensures |stats.Get(s).mismatches| > 0 ==> stats.Get(s).mismatches[0] <= r[|AffectedPrefix|..]
  {
    var mismatches := stats.Get(s).mismatches;
    if |mismatches| > 0 then
      var r := AffectedPrefix + Seqs.Join(mismatches, Seqs.ListSeparator);
      assert r[0] != NoWorries[0];
      assert r[|AffectedPrefix|..] == Seqs.Join(mismatches, Seqs.ListSeparator);
      r
    else NoWorries
  }

  /** Reads a summary line back into the list of affected base names. */
  function ParseSummary(line: string): Option<seq<string>>
  {
    if line == NoWorries then Some([])
    else if AffectedPrefix <= line then Some(Seqs.Split(line[|AffectedPrefix|..], Seqs.ListSeparator))
    else None
  }

  /** The summary line names exactly the stream's mismatches, in order, as long as no
      base name itself contains `", "`. */
  lemma SummaryRoundTrip(stats: Stats, s: Stream)
    requires forall i :: 0 <= i < |stats.Get(s).mismatches| ==>
               !Seqs.Contains(stats.Get(s).mismatches[i], Seqs.ListSeparator)
    ensures ParseSummary(FilesAffectedSummary(stats, s)) == Some(stats.Get(s).mismatches)
  {
    var m := stats.Get(s).mismatches;
    if |m| > 0 {
      var line := FilesAffectedSummary(stats, s);
      assert line[0] != NoWorries[0];
      assert line[|AffectedPrefix|..] == Seqs.Join(m, Seqs.ListSeparator);
      Seqs.SplitJoin(m);
    }
  }

  /** Without that proviso the line is ambiguous: one transfer named `a, b` and two
      transfers `a` and `b` are reported identically. */
  lemma SummaryIsAmbiguousForCommaNames()
    ensures FilesAffectedSummary(Stats(Partition([], []), Partition([], ["a, b"])), Video)
            == FilesAffectedSummary(Stats(Partition([], []), Partition([], ["a", "b"])), Video)
  {
    assert Seqs.Join(["a", "b"], Seqs.ListSeparator) == "a" + ", " + "b";
  }

  /** The figures and lines of the printed report, without its layout. */
  datatype StatsView = StatsView(
    checked: nat,
    audioMismatches: nat, audioSummary: string,
    videoMismatches: nat, videoSummary: string)

  /** `print_stats`: the number of base names checked, and per stream the number of
      mismatches and the summary line. */
  function PrintStats(bases: seq<string>, stats: Stats): StatsView
  {
    StatsView(|bases|,
              |stats.audio.mismatches|, FilesAffectedSummary(stats, Audio),
              |stats.video.mismatches|, FilesAffectedSummary(stats, Video))
  }

  /** For a report built from `bases`: a stream's mismatch count and its matches make
      up all base names checked; the count is zero iff every transfer's sidecars of
      that stream agree; and the summary reassures iff the count is zero. */
  lemma PrintedCounts(bases: seq<string>, same: FileOracle, s: Stream)
    ensures var v := PrintStats(bases, Report(bases, same));
            var count := if s == Audio then v.audioMismatches else v.videoMismatches;
            var line := if s == Audio then v.audioSummary else v.videoSummary;
            && v.checked == |bases|
            && count + |Report(bases, same).Get(s).matches| == v.checked
            && (count == 0 <==> forall i :: 0 <= i < |bases| ==> FileContentsMatch(same, bases[i], s))
            && (line == NoWorries <==> count == 0)
  {
    var stats := Report(bases, same);
    PartitionIsComplete(bases, same, s);
    var m := stats.Get(s).mismatches;
    if |m| == 0 {
      forall i | 0 <= i < |bases|
        ensures FileContentsMatch(same, bases[i], s)
      {
        PartitionMembership(bases, same, s, bases[i]);
      }
    } else {
      PartitionMembership(bases, same, s, m[0]);
      var i :| 0 <= i < |bases| && bases[i] == m[0];
      assert !FileContentsMatch(same, bases[i], s);
    }
  }
}
