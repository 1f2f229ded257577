/** Sidecar naming, the per-stream comparison and the aggregation of
    `report_on_files`. The byte comparison `filecmp.cmp` is the oracle `same`,
    applied to the two sidecar file names. */
module Streams {
  import Seqs

  /** The two elementary streams that have their own checksum sidecars. */
  datatype Stream = Audio | Video

  /** The two container wrappers whose sidecars are cross-checked. */
  datatype Container = Mkv | Mov

  /** Content comparison of two named files, as `filecmp.cmp` answers it. */
  type FileOracle = (string, string) -> bool

  function StreamToken(s: Stream): string
  {
    match s
    case Audio => "audio"
    case Video => "video"
  }

  function ContainerToken(c: Container): string
  {
    match c
    case Mkv => "mkv"
    case Mov => "mov"
  }

  /** The part of a sidecar name after the base: `.{container}.{stream}md5`. */
  function SidecarSuffix(c: Container, s: Stream): string
  {
    "." + ContainerToken(c) + "." + StreamToken(s) + "md5"
  }

  /** `f'{base}.{container}.{stream}md5'`. */
  function SidecarName(base: string, c: Container, s: Stream): string
  {
    base + SidecarSuffix(c, s)
  }

  /** The four sidecar names of one transfer, spelled out. */
  lemma SidecarNamesSpelled(base: string)
    ensures SidecarName(base, Mkv, Video) == base + ".mkv.videomd5"
    ensures SidecarName(base, Mov, Video) == base + ".mov.videomd5"
    ensures SidecarName(base, Mkv, Audio) == base + ".mkv.audiomd5"
    ensures SidecarName(base, Mov, Audio) == base + ".mov.audiomd5"
  {
    assert SidecarSuffix(Mkv, Video) == ".mkv.videomd5";
    assert SidecarSuffix(Mov, Video) == ".mov.videomd5";
    assert SidecarSuffix(Mkv, Audio) == ".mkv.audiomd5";
    assert SidecarSuffix(Mov, Audio) == ".mov.audiomd5";
  }

  /** The length of every `.{container}.{stream}md5` suffix: both container tokens
      have three letters and both stream tokens five. */
  const SidecarSuffixLength := 13

  /** Every sidecar name is the base followed by a fixed-length suffix that the
      container and stream determine. */
  lemma SidecarNameLayout(base: string, c: Container, s: Stream)
    ensures |SidecarName(base, c, s)| == |base| + SidecarSuffixLength
    ensures SidecarName(base, c, s)[..|base|] == base
    ensures SidecarName(base, c, s)[|base| + 1..|base| + 4] == ContainerToken(c)
    ensures SidecarName(base, c, s)[|base| + 5..|base| + 10] == StreamToken(s)
  {
    var n := SidecarName(base, c, s);
    var x := SidecarSuffix(c, s);
    assert x[1..4] == ContainerToken(c) && x[5..10] == StreamToken(s) by {
      match c
      case Mkv => {}
      case Mov => {}
    }
    assert n[|base| + 1..|base| + 4] == x[1..4];
    assert n[|base| + 5..|base| + 10] == x[5..10];
  }

  /** A sidecar name determines its base, container and stream: the four files of
      one transfer are pairwise distinct, and no two transfers share a file. */
  lemma SidecarNameInjective(b1: string, c1: Container, s1: Stream,
                             b2: string, c2: Container, s2: Stream)
    requires SidecarName(b1, c1, s1) == SidecarName(b2, c2, s2)
    ensures b1 == b2 && c1 == c2 && s1 == s2
  {
    SidecarNameLayout(b1, c1, s1);
    SidecarNameLayout(b2, c2, s2);
    assert |b1| == |b2|;
    var n := SidecarName(b1, c1, s1);
    assert ContainerToken(c1) == n[|b1| + 1..|b1| + 4] == ContainerToken(c2);
    assert StreamToken(s1) == n[|b1| + 5..|b1| + 10] == StreamToken(s2);
  }

  /** `file_contents_match(base, stream)`: the MKV sidecar of that stream compared
      with the MOV sidecar of the same stream. */
  function FileContentsMatch(same: FileOracle, base: string, s: Stream): bool
  {
    same(SidecarName(base, Mkv, s), SidecarName(base, Mov, s))
  }

  /** `audio_match`. */
  function AudioMatch(same: FileOracle, base: string): (r: bool)
    ensures r == same(base + ".mkv.audiomd5", base + ".mov.audiomd5")
  {
    SidecarNamesSpelled(base);
    FileContentsMatch(same, base, Audio)
  }

  /** `video_match`. */
  function VideoMatch(same: FileOracle, base: string): (r: bool)
    ensures r == same(base + ".mkv.videomd5", base + ".mov.videomd5")
  {
    SidecarNamesSpelled(base);
    FileContentsMatch(same, base, Video)
  }

  /** The two files one comparison reads are different files, and they are never
      files of the other stream. */
  lemma ComparedFilesAreTheStreamsOwn(base: string, s: Stream, base': string, c: Container, t: Stream)
    requires SidecarName(base', c, t) == SidecarName(base, Mkv, s)
             || SidecarName(base', c, t) == SidecarName(base, Mov, s)
    ensures base' == base && t == s
    ensures SidecarName(base, Mkv, s) != SidecarName(base, Mov, s)
  {
    if SidecarName(base', c, t) == SidecarName(base, Mkv, s) {
      SidecarNameInjective(base', c, t, base, Mkv, s);
    } else {
      SidecarNameInjective(base', c, t, base, Mov, s);
    }
    if SidecarName(base, Mkv, s) == SidecarName(base, Mov, s) {
      SidecarNameInjective(base, Mkv, s, base, Mov, s);
    }
  }

  /** One stream's entry of the `stats` dictionary. */
  datatype Partition = Partition(matches: seq<string>, mismatches: seq<string>)

  /** The `stats` dictionary: one partition per stream. */
  datatype Stats = Stats(audio: Partition, video: Partition)
  {
    function Get(s: Stream): Partition
    {
      match s
      case Audio => audio
      case Video => video
    }
  }

  /** The comparison for one stream as a predicate on base names. */
  function Verdict(same: FileOracle, s: Stream): string -> bool
  {
    base => FileContentsMatch(same, base, s)
  }

  /** Reference definition of one stream's partition: the base names whose sidecars
      agree, and those whose sidecars differ, each in input order. */
  function Partitioned(bases: seq<string>, same: FileOracle, s: Stream): Partition
  {
    Partition(Seqs.Filter(bases, Verdict(same, s), true),
              Seqs.Filter(bases, Verdict(same, s), false))
  }

  /** Each input occurrence lands in exactly one list of the partition: the two lists
      together are the input as a multiset, with no deduplication. */
  lemma PartitionIsComplete(bases: seq<string>, same: FileOracle, s: Stream)
    ensures multiset(Partitioned(bases, same, s).matches)
            + multiset(Partitioned(bases, same, s).mismatches) == multiset(bases)
    ensures |Partitioned(bases, same, s).matches|
            + |Partitioned(bases, same, s).mismatches| == |bases|
  {
    Seqs.FilterPartition(bases, Verdict(same, s));
  }

  /** A base name is listed as a match iff it is an input whose sidecars agree, and as
      a mismatch iff it is an input whose sidecars differ; so no name is in both. */
  lemma PartitionMembership(bases: seq<string>, same: FileOracle, s: Stream, b: string)
    ensures b in Partitioned(bases, same, s).matches <==> b in bases && FileContentsMatch(same, b, s)
    ensures b in Partitioned(bases, same, s).mismatches <==> b in bases && !FileContentsMatch(same, b, s)
  {
    Seqs.FilterMembership(bases, Verdict(same, s), true, b);
    Seqs.FilterMembership(bases, Verdict(same, s), false, b);
  }

  /** Appends `f` to the matches when `matched` holds and to the mismatches otherwise. */
  function Record(p: Partition, f: string, matched: bool): Partition
  {
    if matched then p.(matches := p.matches + [f]) else p.(mismatches := p.mismatches + [f])
  }

  /** Appending one base name to the input extends exactly one list of the partition,
      at its end. */
  lemma PartitionedSnoc(bases: seq<string>, f: string, same: FileOracle, s: Stream)
    ensures Partitioned(bases + [f], same, s)
            == Record(Partitioned(bases, same, s), f, FileContentsMatch(same, f, s))
  {
    var v := Verdict(same, s);
    assert v(f) == FileContentsMatch(same, f, s);
    Seqs.FilterSnoc(bases, f, v, true);
    Seqs.FilterSnoc(bases, f, v, false);
  }

  /** A stream's partition depends only on the comparisons of that stream's sidecars:
      two oracles that agree on those give the same partition, whatever they say
      about the other stream. */
  lemma PartitionDependsOnlyOnItsStream(bases: seq<string>, same1: FileOracle, same2: FileOracle, s: Stream)
    requires forall i :: 0 <= i < |bases| ==>
               same1(SidecarName(bases[i], Mkv, s), SidecarName(bases[i], Mov, s))
               == same2(SidecarName(bases[i], Mkv, s), SidecarName(bases[i], Mov, s))
    ensures Partitioned(bases, same1, s) == Partitioned(bases, same2, s)
  {
    forall i | 0 <= i < |bases|
      ensures Verdict(same1, s)(bases[i]) == Verdict(same2, s)(bases[i])
    {
    }
    Seqs.FilterCongruent(bases, Verdict(same1, s), Verdict(same2, s), true);
    Seqs.FilterCongruent(bases, Verdict(same1, s), Verdict(same2, s), false);
  }

  /** The report `report_on_files` is meant to build: each stream's partition. */
  function Report(bases: seq<string>, same: FileOracle): Stats
  {
    Stats(Partitioned(bases, same, Audio), Partitioned(bases, same, Video))
  }

  /** `report_on_files`: one pass over the base names, appending each to the audio
      matches or mismatches and then to the video matches or mismatches. */
  method ReportOnFiles(bases: seq<string>, same: FileOracle) returns (stats: Stats)
    ensures stats == Report(bases, same)
    ensures |stats.audio.matches| + |stats.audio.mismatches| == |bases|
    ensures |stats.video.matches| + |stats.video.mismatches| == |bases|
  {
    stats := Stats(Partition([], []), Partition([], []));
    var i := 0;
    while i < |bases|
      invariant 0 <= i <= |bases|
      invariant stats == Report(bases[..i], same)
    {
      var f := bases[i];
      assert bases[..i + 1] == bases[..i] + [f];
      PartitionedSnoc(bases[..i], f, same, Audio);
      PartitionedSnoc(bases[..i], f, same, Video);
      stats := stats.(audio := Record(stats.audio, f, AudioMatch(same, f)));
      stats := stats.(video := Record(stats.video, f, VideoMatch(same, f)));
      i := i + 1;
    }
    assert bases[..i] == bases;
    PartitionIsComplete(bases, same, Audio);
    PartitionIsComplete(bases, same, Video);
  }
}
