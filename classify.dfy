/** `handle_error`: the ordered table of error signatures that the engine's output
    is searched for. The first signature found decides the error; output that
    holds none of them is ordinary progress output. */
module Classify {
  import opened Outcomes
  import opened PyText

  const ResourceSignature := "RESOURCE_EXHAUSTED"
  const ServiceSignature := "MMseqs2 API is giving errors"
  const MsaSignature := "Could not get MSA/templates"
  const FeaturesSignature := "Could not generate input features"

  /** The signatures in the order `handle_error` tests them. */
  const Signatures: seq<(string, EngineError)> := [
    (ResourceSignature, ResourceExhausted),
    (ServiceSignature, SearchServiceError),
    (MsaSignature, MsaParseError),
    (FeaturesSignature, NoCandidates)
  ]

  /** Position in `table` of the first signature that `out` contains. */
  function FirstMatch(table: seq<(string, EngineError)>, out: string): (r: Option<nat>)
    ensures r.None? <==> forall i :: 0 <= i < |table| ==> !Contains(out, table[i].0)
    ensures r.Some? ==> r.value < |table| && Contains(out, table[r.value].0)
    ensures r.Some? ==> forall j :: 0 <= j < r.value ==> !Contains(out, table[j].0)
  {
    if table == [] then None
    else if Contains(out, table[0].0) then Some(0)
    else match FirstMatch(table[1..], out)
      case None => None
      case Some(k) => Some(k + 1)
  }

  /** `handle_error(out)`: `None` when it returns normally, `Some(kind)` when it
      raises; the kind is that of the earliest signature `out` contains. */
  function HandleError(out: string): (r: Option<EngineError>)
    ensures r.None? <==>
      && !Contains(out, ResourceSignature) && !Contains(out, ServiceSignature)
      && !Contains(out, MsaSignature) && !Contains(out, FeaturesSignature)
    ensures r == Some(ResourceExhausted) <==> Contains(out, ResourceSignature)
    ensures r == Some(SearchServiceError) <==>
      !Contains(out, ResourceSignature) && Contains(out, ServiceSignature)
    ensures r == Some(MsaParseError) <==>
      !Contains(out, ResourceSignature) && !Contains(out, ServiceSignature) && Contains(out, MsaSignature)
    ensures r == Some(NoCandidates) <==>
      && !Contains(out, ResourceSignature) && !Contains(out, ServiceSignature)
      && !Contains(out, MsaSignature) && Contains(out, FeaturesSignature)
  {
    var m := FirstMatch(Signatures, out);
    assert |Signatures| == 4;
    assert Signatures[0] == (ResourceSignature, ResourceExhausted);
    assert Signatures[1] == (ServiceSignature, SearchServiceError);
    assert Signatures[2] == (MsaSignature, MsaParseError);
    assert Signatures[3] == (FeaturesSignature, NoCandidates);
    assert m.Some? ==> m.value in {0, 1, 2, 3};
    match m
    case None => None
    case Some(k) => Some(Signatures[k].1)
  }

  /** The error raised for a line is the error of a signature the line holds. */
  lemma HandleErrorWitness(out: string)
    requires HandleError(out).Some?
    ensures exists i :: 0 <= i < |Signatures| && Signatures[i].1 == HandleError(out).value
                        && Contains(out, Signatures[i].0)
  {
    var k := FirstMatch(Signatures, out);
    assert Signatures[k.value].1 == HandleError(out).value;
  }
}
