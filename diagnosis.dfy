/**
 * The decision the upload page takes once `find_best_match` has answered:
 * no match, a domain mismatch between the selected crop and the matched
 * file, or the knowledge-base report for the matched file. The rendering of
 * each outcome is not modelled; the outcome carries what is rendered.
 */
module Diagnosis {
  import opened Wrappers
  import opened Text
  import opened Records
  import Processor
  import opened Fingerprints

  datatype Outcome =
      /** "No Match Found": nothing was matched. */
    | NoMatchFound
      /** "Domain Mismatch Detected", naming the active model and the detected plant. */
    | DomainMismatch(activeModel: string, detected: string)
      /** The analysis report for the active model, from one knowledge-base record. */
    | Report(activeModel: string, record: Record)
      /** The match passed the cross-check but has no record: nothing is shown. */
    | NoReport

  /**
   * `name.split('_')[0].capitalize()`: the plant named by a reference file.
   * It is the name's text before the first `_` up to case, with no lower-case
   * first letter and no upper-case letter after it.
   */
  function DetectedLabel(name: string): (r: string)
    ensures |r| <= |name| && '_' !in r
    ensures |r| < |name| ==> name[|r|] == '_'
    ensures forall i :: 0 <= i < |r| ==> LowerChar(r[i]) == LowerChar(name[i])
    ensures |r| > 0 ==> !IsLowerAscii(r[0])
    ensures forall i :: 1 <= i < |r| ==> !IsUpperAscii(r[i])
  {
    CapitalizedFieldFacts(name);
    Capitalize(FirstField(name, '_'))
  }

  lemma CapitalizedFieldFacts(name: string)
    ensures var capitalized := Capitalize(FirstField(name, '_'));
            && '_' !in capitalized
            && forall i :: 0 <= i < |capitalized| ==> LowerChar(capitalized[i]) == LowerChar(name[i])
  {
    var field := FirstField(name, '_');
    var capitalized := Capitalize(field);
    forall i | 0 <= i < |capitalized|
      ensures LowerChar(capitalized[i]) == LowerChar(name[i]) && capitalized[i] != '_'
    {
      assert field[i] == name[i] && field[i] != '_';
    }
  }

  /**
   * The branch at the end of the diagnostics button: an absent or empty
   * match is no match; otherwise the lower-cased crop must occur somewhere
   * in the matched file name, and the report is looked up by that name.
   */
  function Diagnose(matchName: Option<string>, plantType: string, kb: KnowledgeBase): (r: Outcome)
    ensures r == NoMatchFound <==> matchName.None? || matchName.value == []
    ensures r.DomainMismatch? || r.Report? ==> r.activeModel == plantType
    ensures r.Report? ==> && matchName.Some? && matchName.value in kb
                          && r.record == kb[matchName.value]
                          && Contains(matchName.value, Lower(plantType))
  {
    if matchName.None? || matchName.value == [] then NoMatchFound
    else if !Contains(matchName.value, Lower(plantType)) then
      DomainMismatch(plantType, DetectedLabel(matchName.value))
    else if matchName.value in kb then Report(plantType, kb[matchName.value])
    else NoReport
  }

  /**
   * A match is rejected exactly when the lower-cased crop occurs at no
   * offset of the file name; the rejection names the crop as selected and
   * the text before the first `_` (or the whole name), capitalised.
   */
  lemma MismatchIffCropNotInName(name: string, plantType: string, kb: KnowledgeBase)
    requires name != []
    ensures Diagnose(Some(name), plantType, kb).DomainMismatch? <==>
              forall i :: !OccursAt(name, Lower(plantType), i)
    ensures Diagnose(Some(name), plantType, kb).DomainMismatch? ==>
              && Diagnose(Some(name), plantType, kb).activeModel == plantType
              && exists p :: && 0 <= p <= |name|
                             && '_' !in name[..p]
                             && (p < |name| ==> name[p] == '_')
                             && Diagnose(Some(name), plantType, kb).detected == Capitalize(name[..p])
  {
    ContainsIffOccurs(name, Lower(plantType));
    var p := |FirstField(name, '_')|;
    assert name[..p] == FirstField(name, '_');
  }

  /**
   * When the crop does occur in the name, the outcome is the record stored
   * under that very name, unchanged, or nothing at all when there is none.
   */
  lemma AcceptedReportIsStoredRecord(name: string, plantType: string, kb: KnowledgeBase)
    requires name != []
    requires exists i :: OccursAt(name, Lower(plantType), i)
    ensures name in kb ==> Diagnose(Some(name), plantType, kb) == Report(plantType, kb[name])
    ensures name !in kb ==> Diagnose(Some(name), plantType, kb) == NoReport
  {
    ContainsIffOccurs(name, Lower(plantType));
  }

  /** A report is only ever a record of the knowledge base, under the matched name. */
  lemma ReportComesFromKnowledgeBase(matchName: Option<string>, plantType: string, kb: KnowledgeBase)
    requires Diagnose(matchName, plantType, kb).Report?
    ensures matchName.Some? && matchName.value in kb
    ensures Diagnose(matchName, plantType, kb).record == kb[matchName.value]
    ensures exists i :: OccursAt(matchName.value, Lower(plantType), i)
  {
    ContainsIffOccurs(matchName.value, Lower(plantType));
  }

  /**
   * Run on the scan's answer, the page says "No Match Found" exactly when
   * the scan found nothing: a returned name is never empty.
   */
  lemma NoMatchFoundIffScanFindsNothing(query: Option<Fingerprint>, folderExists: bool,
                                        listing: seq<Processor.Entry>, plantType: string, kb: KnowledgeBase)
    ensures Diagnose(Processor.BestMatch(query, folderExists, listing), plantType, kb) == NoMatchFound <==>
              Processor.BestMatch(query, folderExists, listing).None?
  {
    var m := Processor.BestMatch(query, folderExists, listing);
    if m.Some? {
      Processor.BestMatchWithinThreshold(query, folderExists, listing);
      assert m.value != [];
    }
  }

  /**
   * An apple leaf matched while the corn model is active: the message keeps
   * the crop as selected and capitalises the file's leading segment.
   */
  lemma AppleLeafUnderCornModel(kb: KnowledgeBase)
    ensures Diagnose(Some("apple_scab_1.jpg"), "Corn", kb) == DomainMismatch("Corn", "Apple")
  {
    assert Lower("Corn") == "corn";
    CornNotInAppleName();
    AppleLabel();
  }

  lemma CornNotInAppleName()
    ensures !Contains("apple_scab_1.jpg", "corn")
  {
    MissingLetterRulesOutContains("apple_scab_1.jpg", "corn", 1);
  }

  lemma AppleLabel()
    ensures DetectedLabel("apple_scab_1.jpg") == "Apple"
  {
    assert "apple_scab_1.jpg" == "apple" + ['_'] + "scab_1.jpg";
    FirstFieldOfJoin("apple", '_', "scab_1.jpg");
    CapitalizeApple();
  }

  lemma CapitalizeApple()
    ensures Capitalize("apple") == "Apple"
  {
    assert "apple"[1..] == "pple";
    assert Lower("pple") == "pple";
  }

  /** The same leaf under the apple model reports the stored record. */
  lemma AppleLeafUnderAppleModel(kb: KnowledgeBase)
    requires "apple_scab_1.jpg" in kb
    ensures Diagnose(Some("apple_scab_1.jpg"), "Apple", kb) == Report("Apple", kb["apple_scab_1.jpg"])
  {
    assert Lower("Apple") == "apple";
    assert "apple" <= "apple_scab_1.jpg";
  }
}
