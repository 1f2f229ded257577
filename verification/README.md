# compare_md5s — a verified model

`compare_md5s.py` audits a digitisation workflow that wraps each transfer in two
containers, MKV and MOV, and writes an MD5 sidecar per container and elementary stream
(`<base>.mkv.videomd5`, `<base>.mov.videomd5`, `<base>.mkv.audiomd5`,
`<base>.mov.audiomd5`). The script:

1. lists the regular files of the current directory;
2. keeps the names that match the anchor pattern `.mkv.videomd5`;
3. recovers each transfer's base name from its anchor file;
4. compares the MKV and MOV sidecars of every base name, audio and video separately;
5. collects matches and mismatches per stream;
6. prints the number of transfers checked, the mismatch count per stream and the list
   of affected transfers.

This project models steps 2 to 6 as pure Dafny functions, plus one method for the
aggregation loop. The directory listing is the input `names: seq<string>`. The byte
comparison `filecmp.cmp` is an uninterpreted oracle `same: (string, string) -> bool`,
applied to the two sidecar file names. The model still builds those names exactly as
the script does.

Modules:

- `Wrappers` (wrappers.dfy): `Option` and `Result`.
- `Seqs` (seqs.dfy): order-preserving `Filter`, Python's `str.join`, and a `Split`
  that undoes the join.
- `Patterns` (patterns.dfy): the discovery filter and the base-name extraction, each
  written by hand as a string predicate and function rather than a regex engine.
- `Streams` (streams.dfy): sidecar names, the per-stream comparison, and
  `report_on_files`.
- `Summary` (summary.dfy): `files_affected_summary` and the figures of `print_stats`.
- `Pipeline` (pipeline.dfy): `main` without its I/O.

The two regular expressions are modelled precisely:

- Python's `.` does not match a newline (`IsRegexDot`).
- The filter `re.search('.mkv.videomd5', f)` has unescaped dots and can match anywhere
  in the name.
- The extraction `re.match('(.+?)\.mkv\.videomd5', f)` is anchored at the start only,
  and its group is non-greedy and non-empty.

The extraction returns the shortest admissible prefix and ignores any text after the
suffix. Every name it accepts passes the filter. The converse is false:
`aXmkvYvideomd5`, `.mkv.videomd5` and a name whose group would have to contain a
newline all pass the filter, and then `.group(1)` on `None` aborts the run. The model
returns this abort as `Err(name)`, naming the first such file in listing order.

What the script does around discovery:

- It takes no directory argument and always scans `.`.
- It has no early exit when no anchor file is found. It then reports 0 files checked
  and "No worries!" for both streams (`NoAnchorFilesMeansNothingChecked`).
- Filtering and extraction use different patterns, so a name selected by the filter
  can fail extraction (`FilterAdmitsUnextractableName`).
- A name need not end in the anchor suffix: neither pattern is anchored at the end, so
  `x.mkv.videomd5.bak` is discovered with base `x`. A name with no `mkv?videomd5`
  substring at all is excluded, for example `x.mkv.videomd4` (`FilterExcludesOtherSuffix`).
- The three companion sidecars of a transfer are skipped by discovery only while the
  base itself does not pass the filter (`CompanionPassesFilterOnlyThroughBase`). A base
  such as `amkvXvideomd5` does pass it. Then all four sidecars are discovered
  (`FilterPassingBaseExposesCompanions`). One of the three companion sidecars aborts
  the run (`DotlessFilterPassingBaseAborts`). The name reported is the first such
  sidecar in listing order, because extraction stops at the first failing name
  (`ExtractAll`).

## Model

| member | source | states |
|---|---|---|
| Seqs.FilterMembership | compare_md5s.py:99 | a name is kept iff it is in the listing and the filter accepts it |
| Seqs.FilterAppend | compare_md5s.py:99 | filtering commutes with concatenation, so kept names stay in listing order |
| Patterns.PassesAnchorFilter | compare_md5s.py:99 | the filter holds iff at some index there is one non-newline character, `mkv`, one non-newline character, `videomd5` |
| Patterns.RetrieveBaseFilename | compare_md5s.py:28-30 | extraction succeeds iff some admissible group exists; the result is a prefix of the name, followed by `.mkv.videomd5`, newline-free, non-empty, and no shorter group qualifies |
| Patterns.ExtractionIsShortestPrefix | compare_md5s.py:30 | extraction returns `p` iff `p` is non-empty and newline-free, the name starts with `p + ".mkv.videomd5"`, and no shorter group qualifies |
| Patterns.ExtractPlainName | compare_md5s.py:28-30 | for a non-empty, newline-free base with no occurrence of the suffix after its first character, `base + ".mkv.videomd5" + rest` yields `base` whatever `rest` is |
| Patterns.ExtractionImpliesFilter | compare_md5s.py:99-100 | every name the extraction accepts also passes the filter |
| Patterns.FilterAdmitsUnextractableName | compare_md5s.py:99-100 | `aXmkvYvideomd5` passes the filter and extraction fails on it |
| Patterns.FilterExcludesOtherSuffix | compare_md5s.py:99 | `x.mkv.videomd4` is excluded by the filter |
| Patterns.BareSuffixIsNotExtractable | compare_md5s.py:30 | the name `.mkv.videomd5` passes the filter but has no non-empty group to extract |
| Streams.SidecarNamesSpelled | compare_md5s.py:41-42 | the four sidecar names of a base are `base.mkv.videomd5`, `base.mov.videomd5`, `base.mkv.audiomd5` and `base.mov.audiomd5` |
| Streams.SidecarNameInjective | compare_md5s.py:42 | a sidecar name determines its base, container and stream |
| Streams.AudioMatch | compare_md5s.py:33-34 | the audio verdict compares exactly `base.mkv.audiomd5` with `base.mov.audiomd5` |
| Streams.VideoMatch | compare_md5s.py:37-38 | the video verdict compares exactly `base.mkv.videomd5` with `base.mov.videomd5` |
| Streams.ComparedFilesAreTheStreamsOwn | compare_md5s.py:41-42 | the two compared files are distinct and both belong to the given base and stream |
| Streams.PartitionIsComplete | compare_md5s.py:57-66 | per stream, matches plus mismatches equal the input as a multiset, so the counts add up to the number of base names |
| Streams.PartitionMembership | compare_md5s.py:57-66 | a name is a match iff it is an input whose sidecars agree, and a mismatch iff it is an input whose sidecars differ |
| Streams.PartitionedSnoc | compare_md5s.py:58-66 | handling one more base name appends it to the end of exactly one list, chosen by that stream's verdict |
| Streams.PartitionDependsOnlyOnItsStream | compare_md5s.py:57-68 | oracles that agree on one stream's sidecar pairs give the same partition for that stream |
| Streams.ReportOnFiles | compare_md5s.py:45-68 | the loop builds, per stream, the order-preserving sublists of agreeing and differing base names, with counts adding up to the input length |
| Seqs.SplitJoin | compare_md5s.py:91 | splitting at `", "` recovers a non-empty joined list when no element contains `", "` |
| Summary.FilesAffectedSummary | compare_md5s.py:87-93 | the line is "No worries!" iff there is no mismatch; otherwise it starts with the affected-files prefix followed by the first mismatch |
| Summary.SummaryRoundTrip | compare_md5s.py:87-93 | the summary line lists exactly the stream's mismatches, in order, when no base name contains `", "` |
| Summary.SummaryIsAmbiguousForCommaNames | compare_md5s.py:91 | one transfer `a, b` and the two transfers `a`, `b` give the same summary line |
| Summary.PrintedCounts | compare_md5s.py:71-84 | the checked count is the number of base names; a stream's mismatch count plus its matches make that number; the count is zero iff every transfer's sidecars agree, and then the summary is "No worries!" |
| Pipeline.ExtractAll | compare_md5s.py:100 | the comprehension succeeds iff every anchor name is extractable, with one base per anchor in order; otherwise it fails on the first unextractable anchor |
| Pipeline.DiscoveryAbortsOnFilterExtractionGap | compare_md5s.py:99-100 | discovery aborts iff some listed name passes the filter but fails extraction, and it reports such a name |
| Pipeline.LookalikeNameAbortsDiscovery | compare_md5s.py:99-100 | a listing holding only `aXmkvYvideomd5` aborts with that name |
| Pipeline.DiscoverAnchorFiles | compare_md5s.py:98-100 | discovering the anchor files of plain base names returns those base names, in order and with repetitions |
| Pipeline.CompareMd5s | compare_md5s.py:96-103 | the run aborts only on a name that passes the filter and fails extraction; otherwise the checked count is the number of names that pass the filter |
| Pipeline.NoAnchorFilesMeansNothingChecked | compare_md5s.py:96-103 | without anchor files the run completes with 0 checked and "No worries!" for both streams |
| Pipeline.ReportOnOneTransfer | compare_md5s.py:57-66 | the report on one base name files it under each stream by that stream's verdict alone |
| Pipeline.OneTransferAudioMismatch | compare_md5s.py:96-103 | a directory holding one transfer's four sidecars, listed in any order, with a base that is non-empty, newline-free and does not pass the filter, whose video sidecars agree and audio sidecars differ, gives 1 checked, 1 audio mismatch naming the base, and 0 video mismatches |
| Patterns.FilterSurvivesAppending | compare_md5s.py:99 | a name that passes the filter still passes with any text appended |
| Pipeline.CompanionPassesFilterOnlyThroughBase | compare_md5s.py:99 | the MOV video sidecar and both audio sidecars pass the filter only if their base does |
| Seqs.FilterSingle | compare_md5s.py:99 | a name listed once that is the only one the filter accepts is kept alone, wherever it sits in the listing |
| Pipeline.OnlyAnchorPassesFilter | compare_md5s.py:99 | for any base that does not pass the filter, including an empty one or one with a newline, and any listing order, the MKV video sidecar is the only one of its four sidecars the filter selects |
| Pipeline.DiscoverTransferFiles | compare_md5s.py:98-100 | for a non-empty, newline-free base that does not pass the filter, every listing of its four sidecars, in any order, discovers exactly that base |
| Pipeline.FilterPassingBaseExposesCompanions | compare_md5s.py:99 | when the base passes the filter, all four of its sidecars are discovered, in any listing order |
| Pipeline.DotlessFilterPassingBaseAborts | compare_md5s.py:99-100 | a dot-free base that passes the filter makes every listing of its four sidecars abort |
| Pipeline.LookalikeBaseExample | compare_md5s.py:99 | `amkvXvideomd5` passes the filter and contains no dot |

## Left out

- Directory listing (`os.listdir('.')`, `os.path.isfile`, compare_md5s.py:98): this is filesystem I/O. The input is the sequence of regular-file names in listing order.
- Undecodable file names: Python hands back their bytes as lone surrogates (`surrogateescape`), which a Dafny `string` cannot hold. Both patterns treat such a character like any other non-newline character, so names are modelled over Unicode scalar values only.
- File contents and `filecmp.cmp` (compare_md5s.py:42): modelled as the oracle `same` on the two file names. Byte-level comparison and `filecmp`'s shallow signature check are not modelled.
- Missing or unreadable sidecar files: `filecmp.cmp` raises on these and the run aborts. The oracle is total, so this abort is not modelled.
- `print_stats` layout (compare_md5s.py:72-84): the banner, indentation and emoji are terminal output. Only the figures and the two summary lines are modelled, in `StatsView`.
- The module-level `main()` call (compare_md5s.py:106): script plumbing.
- General regular-expression matching: only the two patterns the script uses are modelled.
- Summary.FilesAffectedSummary: its own contract fixes the prefix and the first affected name only. The full list is pinned by `SummaryRoundTrip`, and only when no base name contains `", "`. Otherwise the line is ambiguous, as `SummaryIsAmbiguousForCommaNames` shows.
