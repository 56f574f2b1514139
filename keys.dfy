/** Secondary index keys of the case file table. */
module CaseKeys {
  import opened ArbTypes

  /** All ones in the low 64 bits of a 128-bit key. */
  const Low64Mask: bv128 := 0xFFFF_FFFF_FFFF_FFFF

  /** by_claimant: the claimant's name value. */
  function ByClaimant(cf: CaseFile): (k: bv64)
  {
    cf.claimant.value
  }

  /** Two case files share a by_claimant key exactly when they have the same claimant. */
  lemma ByClaimantMatches(a: CaseFile, b: CaseFile)
    ensures ByClaimant(a) == ByClaimant(b) <==> a.claimant == b.claimant
  {
  }

  /**
   * by_uuid: the claimant in the high 64 bits and the respondent in the low 64 bits.
   * Both halves can be read back, so the key determines the pair.
   */
  function ByUuid(cf: CaseFile): (k: bv128)
    ensures k >> 64 == ByClaimant(cf) as bv128
    ensures k & Low64Mask == cf.respondant.value as bv128
  {
    (cf.claimant.value as bv128 << 64) | cf.respondant.value as bv128
  }

  /** Two case files share a by_uuid key exactly when they have the same claimant and respondent. */
  lemma ByUuidInjective(a: CaseFile, b: CaseFile)
    ensures ByUuid(a) == ByUuid(b) <==> a.claimant == b.claimant && a.respondant == b.respondant
  {
  }
}
