/** The records the fact-checking pipeline passes between its stages. */
module Models {

  /** `ClaimResult(label, evidence)`: the judge's verdict (an unconstrained string,
      `"True"` or `"False"` by convention) and the supporting passage. The field is
      called `verdict` because `label` is a Dafny keyword. */
  datatype ClaimResult = ClaimResult(verdict: string, evidence: string)
}
