/**
 * Report discovery: pair every folder entry with every configured case
 * identifier it names, then list the identifiers no report was found for,
 * and decide whether the run goes on.
 */
module Discovery {
  import opened PyText

  /** The marker every report name must hold. */
  const HtmlMarker: string := "html"

  /** One discovered pair: a report file and the case identifier it names. */
  datatype Match = Match(file: string, caseId: string)

  /** A folder entry is kept for an identifier when it holds both the identifier and "html". */
  predicate Keeps(file: string, caseId: string)
  {
    Contains(file, caseId) && Contains(file, HtmlMarker)
  }

  /** The pairs kept for one folder entry, in identifier order. */
  function MatchesOf(file: string, ids: seq<string>): seq<Match>
  {
    if ids == [] then []
    else
      var last := ids[|ids| - 1];
      MatchesOf(file, ids[..|ids| - 1]) + (if Keeps(file, last) then [Match(file, last)] else [])
  }

  /** All kept pairs, folder entry by folder entry. */
  function Matches(folder: seq<string>, ids: seq<string>): seq<Match>
  {
    if folder == [] then []
    else Matches(folder[..|folder| - 1], ids) + MatchesOf(folder[|folder| - 1], ids)
  }

  function FilesOf(ms: seq<Match>): seq<string>
  {
    seq(|ms|, k requires 0 <= k < |ms| => ms[k].file)
  }

  function CaseIdsOf(ms: seq<Match>): seq<string>
  {
    seq(|ms|, k requires 0 <= k < |ms| => ms[k].caseId)
  }

  /**
   * The nested discovery loop. It fills the two parallel lists `fileLs` and
   * `caseCor` with the kept pairs in folder order, then identifier order.
   */
  method Discover(folder: seq<string>, ids: seq<string>) returns (fileLs: seq<string>, caseCor: seq<string>)
    ensures fileLs == FilesOf(Matches(folder, ids))
    ensures caseCor == CaseIdsOf(Matches(folder, ids))
    ensures |fileLs| == |caseCor|
    ensures forall k :: 0 <= k < |fileLs| ==> Keeps(fileLs[k], caseCor[k])
  {
    fileLs, caseCor := [], [];
    ghost var found: seq<Match> := [];
    for i := 0 to |folder|
      invariant found == Matches(folder[..i], ids)
      invariant fileLs == FilesOf(found) && caseCor == CaseIdsOf(found)
      invariant forall k :: 0 <= k < |found| ==> Keeps(found[k].file, found[k].caseId)
    {
      var file := folder[i];
      assert folder[..i + 1][..i] == folder[..i];
      for j := 0 to |ids|
        invariant found == Matches(folder[..i], ids) + MatchesOf(file, ids[..j])
        invariant fileLs == FilesOf(found) && caseCor == CaseIdsOf(found)
        invariant forall k :: 0 <= k < |found| ==> Keeps(found[k].file, found[k].caseId)
      {
        var ele := ids[j];
        assert ids[..j + 1][..j] == ids[..j];
        if Contains(file, ele) && Contains(file, HtmlMarker) {
          fileLs := fileLs + [file];
          caseCor := caseCor + [ele];
          found := found + [Match(file, ele)];
        }
      }
      assert ids[..|ids|] == ids;
    }
    assert folder[..|folder|] == folder;
  }

  /**
   * A pair is counted once for every time its file appears in the folder
   * listing and its identifier in the configuration, and only if the file
   * is kept for that identifier.
   */
  lemma {:induction false} MatchesOfCount(file: string, ids: seq<string>, m: Match)
    ensures multiset(MatchesOf(file, ids))[m] ==
            if m.file == file && Keeps(file, m.caseId) then multiset(ids)[m.caseId] else 0
  {
    if ids != [] {
      var init, last := ids[..|ids| - 1], ids[|ids| - 1];
      assert ids == init + [last];
      MatchesOfCount(file, init, m);
    }
  }

  /** `n * c`, written as repeated addition so that the counting proofs stay linear. */
  function Times(n: nat, c: nat): nat
  {
    if n == 0 then 0 else Times(n - 1, c) + c
  }

  lemma {:induction false} TimesPositive(n: nat, c: nat)
    ensures Times(n, c) > 0 <==> n > 0 && c > 0
  {
    if n > 0 {
      TimesPositive(n - 1, c);
    }
  }

  lemma {:induction false} MatchesCount(folder: seq<string>, ids: seq<string>, m: Match)
    ensures !Keeps(m.file, m.caseId) ==> multiset(Matches(folder, ids))[m] == 0
    ensures Keeps(m.file, m.caseId) ==>
            multiset(Matches(folder, ids))[m] == Times(multiset(folder)[m.file], multiset(ids)[m.caseId])
  {
    if folder != [] {
      var init, last := folder[..|folder| - 1], folder[|folder| - 1];
      MatchesStep(folder, ids, m);
      MatchesCount(init, ids, m);
      MatchesOfCount(last, ids, m);
      if Keeps(m.file, m.caseId) && m.file == last {
        var a, c := multiset(init)[m.file], multiset(ids)[m.caseId];
        assert Times(a + 1, c) == Times(a, c) + c;
      }
    }
  }

  /** Removing the last folder entry removes exactly its pairs, and one occurrence of its name. */
  lemma MatchesStep(folder: seq<string>, ids: seq<string>, m: Match)
    requires folder != []
    ensures var init, last := folder[..|folder| - 1], folder[|folder| - 1];
      && multiset(Matches(folder, ids))[m] == multiset(Matches(init, ids))[m] + multiset(MatchesOf(last, ids))[m]
      && multiset(folder)[m.file] == multiset(init)[m.file] + (if m.file == last then 1 else 0)
  {
    var init, last := folder[..|folder| - 1], folder[|folder| - 1];
    assert folder == init + [last];
  }

  /** A pair is discovered exactly when its file is listed, its identifier configured, and the file kept for it. */
  lemma MatchMembership(folder: seq<string>, ids: seq<string>, m: Match)
    ensures m in Matches(folder, ids) <==> m.file in folder && m.caseId in ids && Keeps(m.file, m.caseId)
  {
    MatchesCount(folder, ids, m);
    TimesPositive(multiset(folder)[m.file], multiset(ids)[m.caseId]);
  }

  /** An identifier is among the discovered ones exactly when some listed file is kept for it. */
  lemma DiscoveredIds(folder: seq<string>, ids: seq<string>, id: string)
    ensures id in CaseIdsOf(Matches(folder, ids)) <==> id in ids && exists f :: f in folder && Keeps(f, id)
  {
    var ms := Matches(folder, ids);
    if id in CaseIdsOf(ms) {
      var k :| 0 <= k < |ms| && CaseIdsOf(ms)[k] == id;
      MatchMembership(folder, ids, ms[k]);
    }
    if id in ids && exists f :: f in folder && Keeps(f, id) {
      var f :| f in folder && Keeps(f, id);
      MatchMembership(folder, ids, Match(f, id));
      var k :| 0 <= k < |ms| && ms[k] == Match(f, id);
      assert CaseIdsOf(ms)[k] == id;
    }
  }

  // ---------------------------------------------------------------------
  // Identifiers without a report
  // ---------------------------------------------------------------------

  /** The configured identifiers, in order, that are not among the discovered ones. */
  function MissingIds(ids: seq<string>, caseCor: seq<string>): seq<string>
  {
    if ids == [] then []
    else
      var last := ids[|ids| - 1];
      MissingIds(ids[..|ids| - 1], caseCor) + (if last !in caseCor then [last] else [])
  }

  /** Each configured identifier that was never discovered is listed once per time it is configured, and no other. */
  lemma {:induction false} MissingIdsCount(ids: seq<string>, caseCor: seq<string>, x: string)
    ensures multiset(MissingIds(ids, caseCor))[x] == if x in caseCor then 0 else multiset(ids)[x]
  {
    if ids != [] {
      var init, last := ids[..|ids| - 1], ids[|ids| - 1];
      assert ids == init + [last];
      MissingIdsCount(init, caseCor, x);
    }
  }

  /** An identifier is reported missing exactly when it is configured and no listed file is kept for it. */
  lemma MissingMeansNoReport(folder: seq<string>, ids: seq<string>, id: string)
    ensures id in MissingIds(ids, CaseIdsOf(Matches(folder, ids))) <==>
            id in ids && forall f :: f in folder ==> !Keeps(f, id)
  {
    MissingIdsCount(ids, CaseIdsOf(Matches(folder, ids)), id);
    DiscoveredIds(folder, ids, id);
  }

  /** The loop that collects the identifiers without a report, each entry being the identifier itself. */
  method CollectMissing(ids: seq<string>, caseCor: seq<string>) returns (missing: seq<string>)
    ensures missing == MissingIds(ids, caseCor)
    ensures forall x :: x in missing <==> x in ids && x !in caseCor
  {
    missing := [];
    for i := 0 to |ids|
      invariant missing == MissingIds(ids[..i], caseCor)
    {
      assert ids[..i + 1][..i] == ids[..i];
      if ids[i] !in caseCor {
        missing := missing + [ids[i]];
      }
    }
    assert ids[..|ids|] == ids;
    forall x ensures x in missing <==> x in ids && x !in caseCor {
      MissingIdsCount(ids, caseCor, x);
    }
  }

  /**
   * The same loop as the source writes it: for each identifier without a
   * report it appends the whole configured list, not the identifier.
   */
  method CollectMissingAsWritten(ids: seq<string>, caseCor: seq<string>) returns (missing: seq<seq<string>>)
    ensures |missing| == |MissingIds(ids, caseCor)|
    ensures forall k :: 0 <= k < |missing| ==> missing[k] == ids
  {
    missing := [];
    for i := 0 to |ids|
      invariant |missing| == |MissingIds(ids[..i], caseCor)|
      invariant forall k :: 0 <= k < |missing| ==> missing[k] == ids
    {
      assert ids[..i + 1][..i] == ids[..i];
      if ids[i] !in caseCor {
        missing := missing + [ids];
      }
    }
    assert ids[..|ids|] == ids;
  }

  /**
   * With two identifiers configured and only the first one found, the list
   * the source builds holds the whole configuration where the identifier
   * "Case_042" was meant.
   */
  lemma MissingAsWrittenHoldsConfiguration(missing: seq<seq<string>>)
    requires |missing| == |MissingIds(["Case_041", "Case_042"], ["Case_041"])|
    requires forall k :: 0 <= k < |missing| ==> missing[k] == ["Case_041", "Case_042"]
    ensures MissingIds(["Case_041", "Case_042"], ["Case_041"]) == ["Case_042"]
    ensures missing == [["Case_041", "Case_042"]] && missing[0] != ["Case_042"]
  {
    var ids: seq<string> := ["Case_041", "Case_042"];
    assert ids[..1] == ["Case_041"] && ids[..1][..0] == [];
    assert "Case_042" != "Case_041";
  }

  // ---------------------------------------------------------------------
  // Whether the run goes on
  // ---------------------------------------------------------------------

  /** What the run does after discovery. */
  datatype Verdict =
    | NoReportsFound                          // message, then the run stops
    | ReportsMissingFor(missing: seq<string>) // warning listing the entries, run goes on
    | AllReportsFound                         // confirmation, run goes on

  function DiscoveryVerdict(fileLs: seq<string>, missing: seq<string>): (v: Verdict)
    ensures v == NoReportsFound <==> fileLs == []
    ensures v.ReportsMissingFor? <==> fileLs != [] && missing != []
    ensures v.ReportsMissingFor? ==> v.missing == missing
  {
    if |fileLs| == 0 then NoReportsFound
    else if |missing| != 0 then ReportsMissingFor(missing)
    else AllReportsFound
  }

  /**
   * The run stops exactly when no listed file is kept for any configured
   * identifier; it warns exactly when some configured identifier has no
   * kept file; otherwise every identifier has one.
   */
  lemma VerdictMeaning(folder: seq<string>, ids: seq<string>)
    ensures var ms := Matches(folder, ids);
      var v := DiscoveryVerdict(FilesOf(ms), MissingIds(ids, CaseIdsOf(ms)));
      && (v == NoReportsFound <==> forall f, id :: f in folder && id in ids ==> !Keeps(f, id))
      && (v.ReportsMissingFor? ==>
            forall id :: id in v.missing <==> id in ids && forall f :: f in folder ==> !Keeps(f, id))
      && (v == AllReportsFound <==>
            ms != [] && forall id :: id in ids ==> exists f :: f in folder && Keeps(f, id))
  {
    var ms := Matches(folder, ids);
    var missing := MissingIds(ids, CaseIdsOf(ms));
    forall f, id | f in folder && id in ids
      ensures Keeps(f, id) <==> Match(f, id) in ms
    {
      MatchMembership(folder, ids, Match(f, id));
    }
    if ms != [] {
      MatchMembership(folder, ids, ms[0]);
    }
    forall id
      ensures id in missing <==> id in ids && forall f :: f in folder ==> !Keeps(f, id)
    {
      MissingMeansNoReport(folder, ids, id);
    }
    if missing != [] {
      assert missing[0] in missing;
    }
  }
}
