/**
 Decision logic of the folding utility helpers: the completeness check on a
 downloaded PDB (wwPDB coordinate file) text, the recommended force-field to
 water-model table, what `download_pdb` does with an HTTP response, and the
 retry loop that picks a PDB identifier from a category index.
 */
module Ops {
  import opened Strings

  // ---------------------------------------------------------------------------
  // Completeness validator (is_pdb_complete)
  // ---------------------------------------------------------------------------

  /** Remarks a PDB header carries when the entry lacks atomic data. */
  const Markers: set<string> := {"missing heteroatom", "missing residues", "missing atom"}

  /** A PDB text is complete when its lower-cased form contains none of the markers. */
  predicate IsPdbComplete(pdbText: string) {
    forall m | m in Markers :: !Contains(Lower(pdbText), m)
  }

  /**
   The validator as the source runs it: lower-case once, then visit the
   markers of the set one at a time, in no particular order, and answer
   false as soon as one is found.
   */
  method CheckPdbComplete(pdbText: string) returns (complete: bool)
    ensures complete == IsPdbComplete(pdbText)
    ensures !complete <==> exists m :: m in Markers && Contains(Lower(pdbText), m)
  {
    var pdbTextLower := Lower(pdbText);
    var remaining := Markers;
    while remaining != {}
      invariant remaining <= Markers
      invariant forall m :: m in Markers - remaining ==> !Contains(pdbTextLower, m)
      decreases remaining
    {
      var value :| value in remaining;
      if Contains(pdbTextLower, value) {
        return false;
      }
      remaining := remaining - {value};
    }
    return true;
  }

  /** Completeness in terms of positions: no marker starts anywhere in the lower-cased text. */
  lemma CompleteIffNoMarkerOccurs(pdbText: string)
    ensures IsPdbComplete(pdbText) <==>
      forall m, i :: m in Markers ==> !OccursAt(Lower(pdbText), m, i)
  {
    var low := Lower(pdbText);
    forall m | m in Markers
      ensures Contains(low, m) <==> exists i :: OccursAt(low, m, i)
    {
      ContainsIffOccurs(low, m);
    }
  }

  /** The verdict ignores case: a text and its lower-cased form are judged alike. */
  lemma CaseInsensitive(pdbText: string)
    ensures IsPdbComplete(pdbText) == IsPdbComplete(Lower(pdbText))
  {
    LowerIdempotent(pdbText);
  }

  /** Two texts that differ only in the case of their ASCII letters get the same verdict. */
  lemma SameLowerSameVerdict(a: string, b: string)
    requires DifferOnlyInCase(a, b)
    ensures IsPdbComplete(a) == IsPdbComplete(b)
  {
    LowerUpToCase(a, b);
  }

  /** Adding text before or after an incomplete PDB text never makes it complete. */
  lemma IncompleteStaysIncomplete(pdbText: string, extra: string)
    requires !IsPdbComplete(pdbText)
    ensures !IsPdbComplete(pdbText + extra)
    ensures !IsPdbComplete(extra + pdbText)
  {
    var m :| m in Markers && Contains(Lower(pdbText), m);
    LowerConcat(pdbText, extra);
    LowerConcat(extra, pdbText);
    ContainsInContext([], Lower(pdbText), Lower(extra), m);
    assert [] + Lower(pdbText) + Lower(extra) == Lower(pdbText + extra);
    ContainsInContext(Lower(extra), Lower(pdbText), [], m);
    assert Lower(extra) + Lower(pdbText) + [] == Lower(extra + pdbText);
  }

  /** A text shorter than the shortest marker, the empty text among them, is complete. */
  lemma ShortTextIsComplete(pdbText: string)
    requires |pdbText| < |"missing atom"|
    ensures IsPdbComplete(pdbText)
  {
  }

  /** A remark written in mixed case, "Missing Residues", marks the text incomplete. */
  lemma MixedCaseMarkerIsIncomplete()
    ensures !IsPdbComplete("REMARK 465 Missing Residues")
  {
    var head, remark := "REMARK 465 ", "Missing Residues";
    var marker := "missing residues";
    assert head + remark == "REMARK 465 Missing Residues";
    forall i | 0 <= i < |remark| ensures Lower(remark)[i] == marker[i] { }
    assert Lower(remark) == marker;
    LowerConcat(head, remark);
    ContainsInContext(Lower(head), marker, [], marker);
    assert Lower(head) + marker + [] == Lower(head + remark);
  }

  // ---------------------------------------------------------------------------
  // Force-field / water-model pairs (FF_WATER_PAIRS)
  // ---------------------------------------------------------------------------

  /** Recommended water model for each GROMACS force field. */
  const FfWaterPairs: map<string, string> := map[
    "amber03" := "tip3p",
    "amber94" := "tip3p",
    "amber96" := "tip3p",
    "amber99" := "tip3p",
    "amber99sb-ildn" := "tip3p",
    "amber99sb" := "tip3p",
    "amberGS" := "tip3p",
    "charmm27" := "tip3p",
    "gromos43a1" := "spc",
    "gromos43a2" := "spc",
    "gromos45a3" := "spc",
    "gromos53a5" := "spc",
    "gromos53a6" := "spc",
    "gromos54a7" := "spc",
    "oplsaa" := "tip4p"
  ]

  /** The AMBER, CHARMM, GROMOS and OPLS force fields the table lists. */
  const AmberForceFields: set<string> :=
    {"amber03", "amber94", "amber96", "amber99", "amber99sb-ildn", "amber99sb", "amberGS"}
  const GromosForceFields: set<string> :=
    {"gromos43a1", "gromos43a2", "gromos45a3", "gromos53a5", "gromos53a6", "gromos54a7"}
  const ForceFields: set<string> := AmberForceFields + {"charmm27"} + GromosForceFields + {"oplsaa"}

  /** The table covers exactly the listed force fields. */
  lemma FfWaterPairsKeys()
    ensures FfWaterPairs.Keys == ForceFields
  {
  }

  /** The AMBER list holds seven distinct names and the GROMOS list six. */
  lemma FamilySizes()
    ensures |AmberForceFields| == 7 && |GromosForceFields| == 6
  {
  }

  /** No name is listed in two families: the first letters already tell them apart. */
  lemma FamiliesDisjoint()
    ensures AmberForceFields !! GromosForceFields
    ensures "charmm27" !in AmberForceFields + GromosForceFields
    ensures "oplsaa" !in AmberForceFields + {"charmm27"} + GromosForceFields
  {
    assert forall ff :: ff in AmberForceFields ==> ff[0] == 'a';
    assert forall ff :: ff in GromosForceFields ==> ff[0] == 'g';
  }

  /** The listed force fields are fifteen distinct names. */
  lemma FfWaterPairsSize()
    ensures |FfWaterPairs| == 15
  {
    FamilySizes();
    FamiliesDisjoint();
    var withCharmm := AmberForceFields + {"charmm27"};
    assert |withCharmm| == 8;
    assert |withCharmm + GromosForceFields| == 14;
    FfWaterPairsKeys();
  }

  /** Every recommended water model is one of TIP3P, SPC or TIP4P, and each of the three is used. */
  lemma FfWaterPairsValues()
    ensures FfWaterPairs.Values == {"tip3p", "spc", "tip4p"}
  {
    assert FfWaterPairs["amber03"] == "tip3p";
    assert FfWaterPairs["gromos54a7"] == "spc";
    assert FfWaterPairs["oplsaa"] == "tip4p";
    assert forall ff :: ff in FfWaterPairs ==> FfWaterPairs[ff] in {"tip3p", "spc", "tip4p"};
  }

  /**
   By family: the AMBER force fields and CHARMM27 pair with TIP3P, the GROMOS
   force fields with SPC, and OPLS-AA with TIP4P; and no other key does.
   */
  lemma FfWaterPairsByFamily()
    ensures forall ff :: ff in FfWaterPairs ==>
      (FfWaterPairs[ff] == "tip3p" <==> "amber" <= ff || ff == "charmm27")
    ensures forall ff :: ff in FfWaterPairs ==> (FfWaterPairs[ff] == "spc" <==> "gromos" <= ff)
    ensures forall ff :: ff in FfWaterPairs ==> (FfWaterPairs[ff] == "tip4p" <==> ff == "oplsaa")
  {
    forall ff | ff in FfWaterPairs
      ensures FfWaterPairs[ff] == "tip3p" <==> "amber" <= ff || ff == "charmm27"
      ensures FfWaterPairs[ff] == "spc" <==> "gromos" <= ff
      ensures FfWaterPairs[ff] == "tip4p" <==> ff == "oplsaa"
    {
      assert ff[0] == 'a' ==> FfWaterPairs[ff] == "tip3p" && "amber" <= ff;
      assert ff[0] == 'g' ==> FfWaterPairs[ff] == "spc" && "gromos" <= ff;
    }
  }

  // ---------------------------------------------------------------------------
  // Download decision (download_pdb)
  // ---------------------------------------------------------------------------

  /** What the HTTP GET returned: its status code and its body as text. */
  datatype Response = Response(statusCode: int, text: string)

  /** A file path built from a directory and a file name. */
  datatype FilePath = Join(directory: string, name: string)

  /**
   The three ways `download_pdb` can end: the file is written and True is
   returned, nothing is written and False is returned, or nothing is written
   and an exception carrying `message` is raised.
   */
  datatype DownloadOutcome =
    | Written(path: FilePath, contents: string)
    | Rejected
    | DownloadError(message: string)

  const RcsbDownloadBase: string := "https://files.rcsb.org/download/"

  function RcsbUrl(pdbId: string): (url: string)
    ensures RcsbDownloadBase <= url && url[|RcsbDownloadBase|..] == pdbId
  {
    RcsbDownloadBase + pdbId
  }

  /**
   `fetch` stands for the HTTP GET: the response the server gives for a URL.
   The download asks for the RCSB URL of `pdbId` and decides on the answer.
   */
  function DownloadPdb(pdbDirectory: string, pdbId: string, fetch: string -> Response): (outcome: DownloadOutcome)
    ensures var r := fetch(RcsbUrl(pdbId));
      && (outcome.Written? <==> r.statusCode == 200 && IsPdbComplete(r.text))
      && (outcome.Written? ==> outcome.path == Join(pdbDirectory, pdbId) && outcome.contents == r.text)
      && (outcome.Rejected? <==> r.statusCode == 200 && !IsPdbComplete(r.text))
      && (outcome.DownloadError? <==> r.statusCode != 200)
      && (outcome.DownloadError? ==> outcome.message == "Failed to download PDB file with ID " + pdbId + ".")
  {
    var path := Join(pdbDirectory, pdbId);
    var r := fetch(RcsbUrl(pdbId));
    if r.statusCode == 200 then
      if IsPdbComplete(r.text) then Written(path, r.text) else Rejected
    else
      DownloadError("Failed to download PDB file with ID " + pdbId + ".")
  }

  /** Whatever the server answers, a file that gets written is a complete PDB text. */
  lemma WrittenFileIsComplete(pdbDirectory: string, pdbId: string, fetch: string -> Response)
    ensures DownloadPdb(pdbDirectory, pdbId, fetch).Written? ==>
      IsPdbComplete(DownloadPdb(pdbDirectory, pdbId, fetch).contents)
  {
  }

  /** A 200 response with a complete body writes that body to `<directory>/<id>`. */
  lemma DownloadCompleteWrites()
    ensures DownloadPdb("pdbs", "1ubq", _ => Response(200, "HEADER"))
      == Written(Join("pdbs", "1ubq"), "HEADER")
  {
    ShortTextIsComplete("HEADER");
  }

  /** A 200 response whose body reports missing residues writes nothing and returns False. */
  lemma DownloadIncompleteRejects()
    ensures DownloadPdb("pdbs", "1ubq", _ => Response(200, "REMARK 465 Missing Residues")) == Rejected
  {
    MixedCaseMarkerIsIncomplete();
  }

  /** A 404 response writes nothing and raises an error naming the identifier. */
  lemma DownloadNotFoundRaises()
    ensures DownloadPdb("pdbs", "1ubq", _ => Response(404, ""))
      == DownloadError("Failed to download PDB file with ID 1ubq.")
  {
  }

  // ---------------------------------------------------------------------------
  // Identifier selection (select_random_pdb_id)
  // ---------------------------------------------------------------------------

  /**
   How a bounded run of the selection loop ends: with an identifier, with the
   IndexError `random.choice` raises on an index without categories, or with
   the loop still running when the bound on rounds is used up.
   */
  datatype Selection = Selected(pdbId: string) | IndexError | OutOfFuel

  /** Some category of the index has at least one identifier. */
  predicate HasNonEmptyCategory(pdbIds: map<string, seq<string>>) {
    exists family :: family in pdbIds && pdbIds[family] != []
  }

  /**
   The retry loop: draw a category, and if its list is non-empty return an
   identifier drawn from it, otherwise draw again. Each draw is an arbitrary
   choice. `fuel` bounds the number of rounds looked at.
   */
  method SelectRandomPdbId(pdbIds: map<string, seq<string>>, fuel: nat) returns (s: Selection)
    ensures s.Selected? ==>
      exists family :: family in pdbIds && pdbIds[family] != [] && s.pdbId in pdbIds[family]
    ensures !HasNonEmptyCategory(pdbIds) ==> !s.Selected?
    ensures s.IndexError? <==> pdbIds == map[] && fuel > 0
    ensures fuel > 0 && pdbIds != map[] && (forall f :: f in pdbIds ==> pdbIds[f] != []) ==> s.Selected?
    ensures s.OutOfFuel? ==> fuel == 0 || exists f :: f in pdbIds && pdbIds[f] == []
  {
    var rounds := fuel;
    while rounds > 0
      invariant rounds <= fuel
      invariant pdbIds == map[] ==> rounds == fuel
      invariant rounds < fuel ==> exists f :: f in pdbIds && pdbIds[f] == []
      decreases rounds
    {
      if pdbIds == map[] {
        return IndexError;
      }
      var family :| family in pdbIds;
      var choices := pdbIds[family];
      if |choices| > 0 {
        var k :| 0 <= k < |choices|;
        return Selected(choices[k]);
      }
      rounds := rounds - 1;
    }
    return OutOfFuel;
  }
}
