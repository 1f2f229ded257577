/** `main` without its I/O: the list of regular-file names of the scanned directory
    goes in, and either the printed figures or the name whose extraction raised
    comes out. */
module Pipeline {
  import opened Wrappers
  import Seqs
  import opened Patterns
  import opened Streams
  import opened Summary

  /** The file names kept by the list comprehension at the discovery step. */
  function AnchorNames(names: seq<string>): seq<string>
  {
    Seqs.Filter(names, PassesAnchorFilter, true)
  }

  /** `[retrieve_base_filename(f) for f in anchors]`: the first name whose extraction
      fails aborts the whole comprehension. */
  function ExtractAll(anchors: seq<string>): (r: Result<seq<string>, string>)
    ensures r.Ok? ==> && |r.value| == |anchors|
                      && forall i :: 0 <= i < |anchors| ==>
                           RetrieveBaseFilename(anchors[i]) == Some(r.value[i])
    ensures r.Err? ==> exists i :: && 0 <= i < |anchors| && anchors[i] == r.error
                                   && RetrieveBaseFilename(anchors[i]) == None
                                   && forall j :: 0 <= j < i ==> RetrieveBaseFilename(anchors[j]).Some?
    ensures r.Ok? <==> forall i :: 0 <= i < |anchors| ==> RetrieveBaseFilename(anchors[i]).Some?
  {
    if |anchors| == 0 then Ok([])
    else
      match RetrieveBaseFilename(anchors[0])
      case None => Err(anchors[0])
      case Some(b) =>
        var rest := ExtractAll(anchors[1..]);
        if rest.Err? then
          assert exists i :: && 0 <= i < |anchors| - 1 && anchors[1..][i] == rest.error
                             && RetrieveBaseFilename(anchors[1..][i]) == None
                             && forall j :: 0 <= j < i ==> RetrieveBaseFilename(anchors[1..][j]).Some?;
          var i :| && 0 <= i < |anchors| - 1 && anchors[1..][i] == rest.error
                   && RetrieveBaseFilename(anchors[1..][i]) == None
                   && forall j :: 0 <= j < i ==> RetrieveBaseFilename(anchors[1..][j]).Some?;
          assert forall j :: 0 <= j < i + 1 ==> RetrieveBaseFilename(anchors[j]).Some? by {
            forall j | 0 <= j < i + 1
              ensures RetrieveBaseFilename(anchors[j]).Some?
            {
              if j > 0 { assert anchors[j] == anchors[1..][j - 1]; }
            }
          }
          Err(rest.error)
        else
          Ok([b] + rest.value)
  }

  /** Discovery: filter the names, then extract a base name from every kept name. */
  function DiscoverBases(names: seq<string>): Result<seq<string>, string>
  {
    ExtractAll(AnchorNames(names))
  }

  /** Discovery aborts exactly when some name passes the filter but not the
      extraction, and the name it reports is such a name. */
  lemma DiscoveryAbortsOnFilterExtractionGap(names: seq<string>)
    ensures DiscoverBases(names).Err? <==>
              exists n :: n in names && PassesAnchorFilter(n) && RetrieveBaseFilename(n) == None
    ensures DiscoverBases(names).Err? ==>
              var n := DiscoverBases(names).error;
              n in names && PassesAnchorFilter(n) && RetrieveBaseFilename(n) == None
  {
    var anchors := AnchorNames(names);
    if DiscoverBases(names).Err? {
      var i :| && 0 <= i < |anchors| && anchors[i] == DiscoverBases(names).error
               && RetrieveBaseFilename(anchors[i]) == None;
      Seqs.FilterMembership(names, PassesAnchorFilter, true, anchors[i]);
    } else {
      forall n | n in names && PassesAnchorFilter(n)
        ensures RetrieveBaseFilename(n).Some?
      {
        Seqs.FilterMembership(names, PassesAnchorFilter, true, n);
        var i :| 0 <= i < |anchors| && anchors[i] == n;
      }
    }
  }

  /** The directory holding only `aXmkvYvideomd5` makes the run abort. */
  lemma LookalikeNameAbortsDiscovery()
    ensures DiscoverBases(["aXmkvYvideomd5"]) == Err("aXmkvYvideomd5")
  {
    FilterAdmitsUnextractableName();
    assert AnchorNames(["aXmkvYvideomd5"]) == ["aXmkvYvideomd5"];
  }

  /** The anchor sidecar of each transfer, in order. */
  function AnchorFiles(bases: seq<string>): (r: seq<string>)
    ensures |r| == |bases|
  {
    if |bases| == 0 then [] else [SidecarName(bases[0], Mkv, Video)] + AnchorFiles(bases[1..])
  }

  /** Discovery inverts sidecar naming: listing the anchor files of plain transfer
      names gives those names back, in order and with repetitions. */
  lemma {:induction false} DiscoverAnchorFiles(bases: seq<string>)
    requires forall i :: 0 <= i < |bases| ==> PlainBase(bases[i])
    ensures DiscoverBases(AnchorFiles(bases)) == Ok(bases)
  {
    if |bases| > 0 {
      var b := bases[0];
      var f := SidecarName(b, Mkv, Video);
      SidecarNamesSpelled(b);
      assert f == b + AnchorSuffix + "";
      ExtractPlainName(b, "");
      ExtractionImpliesFilter(f);
      DiscoverAnchorFiles(bases[1..]);
      assert AnchorFiles(bases) == [f] + AnchorFiles(bases[1..]);
      assert [b] + bases[1..] == bases;
    }
  }

  /** The whole run as a function of the directory listing and the comparison oracle. */
  function Run(names: seq<string>, same: FileOracle): Result<StatsView, string>
  {
    match DiscoverBases(names)
    case Err(n) => Err(n)
    case Ok(bases) => Ok(PrintStats(bases, Report(bases, same)))
  }

  /** `main`: discovery, `report_on_files`, then the figures of `print_stats`. */
  method CompareMd5s(names: seq<string>, same: FileOracle) returns (r: Result<StatsView, string>)
    ensures r == Run(names, same)
    ensures r.Err? ==> r.error in names && PassesAnchorFilter(r.error)
                       && RetrieveBaseFilename(r.error) == None
    ensures r.Ok? ==> r.value.checked == |AnchorNames(names)|
  {
    DiscoveryAbortsOnFilterExtractionGap(names);
    var discovered := DiscoverBases(names);
    if discovered.Err? {
      return Err(discovered.error);
    }
    var bases := discovered.value;
    var stats := ReportOnFiles(bases, same);
    r := Ok(PrintStats(bases, stats));
  }

  /** With no anchor file the run still completes: nothing checked, and both streams
      report no worries. */
  lemma NoAnchorFilesMeansNothingChecked(names: seq<string>, same: FileOracle)
    requires forall i :: 0 <= i < |names| ==> !PassesAnchorFilter(names[i])
    ensures Run(names, same) == Ok(StatsView(0, 0, NoWorries, 0, NoWorries))
  {
    Seqs.FilterNoneKept(names, PassesAnchorFilter, true);
  }

  /** The report on a single transfer files it under each stream by that stream's
      comparison alone. */
  lemma ReportOnOneTransfer(b: string, same: FileOracle)
    ensures Report([b], same)
            == Stats(Record(Partition([], []), b, AudioMatch(same, b)),
                     Record(Partition([], []), b, VideoMatch(same, b)))
  {
    PartitionedSnoc([], b, same, Audio);
    PartitionedSnoc([], b, same, Video);
    assert [] + [b] == [b];
  }

  /** The four sidecar files of one transfer, in one of the orders a listing may show
      them; the lemmas below take any rearrangement of it. */
  function TransferFiles(b: string): (r: seq<string>)
    ensures |r| == 4
  {
    [SidecarName(b, Mkv, Video), SidecarName(b, Mov, Video),
     SidecarName(b, Mkv, Audio), SidecarName(b, Mov, Audio)]
  }

  /** A name of a listing that rearranges the four sidecars is one of them. */
  lemma ListedSidecar(b: string, names: seq<string>, n: string)
    requires multiset(names) == multiset(TransferFiles(b))
    requires n in names
    ensures exists c: Container, s: Stream :: n == SidecarName(b, c, s)
  {
    assert n in multiset(names);
    assert n in TransferFiles(b);
    var files := TransferFiles(b);
    if n == files[0] {
      assert n == SidecarName(b, Mkv, Video);
    } else if n == files[1] {
      assert n == SidecarName(b, Mov, Video);
    } else if n == files[2] {
      assert n == SidecarName(b, Mkv, Audio);
    } else {
      assert n == SidecarName(b, Mov, Audio);
    }
  }

  /** A companion sidecar (any but the MKV video one) passes the discovery filter only
      through its base: the suffix's dots sit at offsets 0 and 4, so a match reaching
      into the suffix would have to start exactly at it, where `mov` or `audiomd5`
      differs from the pattern. */
  lemma CompanionPassesFilterOnlyThroughBase(b: string, c: Container, s: Stream)
    requires c == Mov || s == Audio
    ensures PassesAnchorFilter(SidecarName(b, c, s)) ==> PassesAnchorFilter(b)
  {
    var n := SidecarName(b, c, s);
    var suf := SidecarSuffix(c, s);
    assert n == b + suf;
    assert suf[0] == '.' && suf[4] == '.' by {
      SidecarNamesSpelled(b);
    }
    assert suf[2] != AnchorSuffix[2] || suf[5] != AnchorSuffix[5] by {
      SidecarNamesSpelled(b);
    }
    if !PassesAnchorFilter(b) {
      forall i | 0 <= i && i + PatternLength <= |n|
        ensures !FilterMatchesAt(n, i)
      {
        FilterMatchInPrefix(b, n, i);
        if i + PatternLength > |b| {
          var d := |b| - i;
          assert n[i + d] == suf[0] && n[i + d + 4] == suf[4];
          if d == 0 {
            assert n[i + 2] == suf[2] && n[i + 5] == suf[5];
            FilterNeedsLetterAt(n, i, 2);
            FilterNeedsLetterAt(n, i, 5);
          } else if d == 4 {
            assert AnchorSuffix[8] == 'e';
            FilterNeedsLetterAt(n, i, 8);
          } else {
            assert AnchorSuffix[d] != '.';
            FilterNeedsLetterAt(n, i, d);
          }
        }
      }
    }
  }

  /** The anchor sidecar occurs once among a transfer's four sidecars. */
  lemma AnchorIsListedOnce(b: string)
    ensures multiset(TransferFiles(b))[SidecarName(b, Mkv, Video)] == 1
  {
    var anchor := SidecarName(b, Mkv, Video);
    var files := TransferFiles(b);
    SidecarNamesSpelled(b);
    assert files[1][|b| + 2] != anchor[|b| + 2];
    assert files[2][|b| + 5] != anchor[|b| + 5];
    assert files[3][|b| + 2] != anchor[|b| + 2];
    assert files == [anchor] + files[1..];
    assert anchor !in files[1..];
  }

  /** For any base the filter does not select on its own, the anchor is the only sidecar
      of any listing of the four that passes the filter. */
  lemma OnlyAnchorPassesFilter(b: string, names: seq<string>)
    requires !PassesAnchorFilter(b)
    requires multiset(names) == multiset(TransferFiles(b))
    ensures forall i :: 0 <= i < |names| && PassesAnchorFilter(names[i])
                        ==> names[i] == SidecarName(b, Mkv, Video)
  {
    CompanionPassesFilterOnlyThroughBase(b, Mov, Video);
    CompanionPassesFilterOnlyThroughBase(b, Mkv, Audio);
    CompanionPassesFilterOnlyThroughBase(b, Mov, Audio);
    forall i | 0 <= i < |names| && PassesAnchorFilter(names[i])
      ensures names[i] == SidecarName(b, Mkv, Video)
    {
      ListedSidecar(b, names, names[i]);
    }
  }

  /** For a base the filter does not select on its own, any listing of its four
      sidecars, in whatever order, discovers exactly that base. */
  lemma DiscoverTransferFiles(b: string, names: seq<string>)
    requires UnfilteredBase(b)
    requires multiset(names) == multiset(TransferFiles(b))
    ensures DiscoverBases(names) == Ok([b])
  {
    forall i | 1 <= i
      ensures !Seqs.OccursAt(b, AnchorSuffix, i)
    {
      AnchorOccurrenceIsFilterMatch(b, i);
    }
    assert PlainBase(b);
    DiscoverAnchorFiles([b]);
    var anchor := SidecarName(b, Mkv, Video);
    assert AnchorFiles([b]) == [anchor];
    assert AnchorNames([anchor]) == [anchor];
    AnchorIsListedOnce(b);
    OnlyAnchorPassesFilter(b, names);
    Seqs.FilterSingle(names, PassesAnchorFilter, true, anchor);
    assert AnchorNames(names) == [anchor];
  }

  /** Any listing of one transfer `b`'s four sidecars, whose video sidecars agree and
      whose audio sidecars differ: one file checked, no video mismatch, and one audio
      mismatch naming `b`. */
  lemma OneTransferAudioMismatch(b: string, names: seq<string>, same: FileOracle)
    requires UnfilteredBase(b)
    requires multiset(names) == multiset(TransferFiles(b))
    requires same(b + ".mkv.videomd5", b + ".mov.videomd5")
    requires !same(b + ".mkv.audiomd5", b + ".mov.audiomd5")
    ensures Run(names, same) == Ok(StatsView(1, 1, AffectedPrefix + b, 0, NoWorries))
  {
    DiscoverTransferFiles(b, names);
    var stats := Stats(Partition([], [b]), Partition([b], []));
    assert Report([b], same) == stats by {
      SidecarNamesSpelled(b);
      ReportOnOneTransfer(b, same);
    }
    assert Run(names, same) == Ok(PrintStats([b], stats));
    assert FilesAffectedSummary(stats, Audio) == AffectedPrefix + b;
  }

  /** When the base itself passes the filter, every one of its sidecars does, so any
      listing of the four files keeps all of them, not only the anchor. */
  lemma FilterPassingBaseExposesCompanions(b: string, names: seq<string>)
    requires PassesAnchorFilter(b)
    requires multiset(names) == multiset(TransferFiles(b))
    ensures AnchorNames(names) == names
  {
    forall i | 0 <= i < |names|
      ensures PassesAnchorFilter(names[i])
    {
      ListedSidecar(b, names, names[i]);
      var c: Container, s: Stream :| names[i] == SidecarName(b, c, s);
      FilterSurvivesAppending(b, SidecarSuffix(c, s));
    }
    Seqs.FilterAllKept(names, PassesAnchorFilter, true);
  }

  /** Such a base without dots, `amkvXvideomd5` for one, makes every listing of the
      transfer's sidecars abort: its MOV video sidecar passes the filter, but no
      `.mkv.videomd5` follows any prefix of it. */
  lemma DotlessFilterPassingBaseAborts(b: string, names: seq<string>, same: FileOracle)
    requires PassesAnchorFilter(b)
    requires forall i :: 0 <= i < |b| ==> b[i] != '.'
    requires multiset(names) == multiset(TransferFiles(b))
    ensures Run(names, same).Err?
  {
    var n := SidecarName(b, Mov, Video);
    SidecarNamesSpelled(b);
    assert n == b + ".mov.videomd5";
    forall k
      ensures !BaseEndsAt(n, k)
    {
      if 1 <= k && k + |AnchorSuffix| <= |n| {
        if k < |b| {
          assert n[k..k + |AnchorSuffix|][0] == b[k];
        } else {
          assert n[k..k + |AnchorSuffix|][2] == 'o';
        }
      }
    }
    assert RetrieveBaseFilename(n) == None;
    FilterSurvivesAppending(b, SidecarSuffix(Mov, Video));
    assert n == TransferFiles(b)[1] && n in multiset(TransferFiles(b));
    assert n in multiset(names);
    DiscoveryAbortsOnFilterExtractionGap(names);
  }

  /** `amkvXvideomd5` is such a base. */
  lemma LookalikeBaseExample()
    ensures PassesAnchorFilter("amkvXvideomd5")
    ensures forall i :: 0 <= i < |"amkvXvideomd5"| ==> "amkvXvideomd5"[i] != '.'
  {
    var f := "amkvXvideomd5";
    assert f[1..4] == "mkv" && f[5..13] == "videomd5";
    assert FilterMatchesAt(f, 0);
  }
}
