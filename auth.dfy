/** The token masking used when the auth tools echo a credential back. */
module Auth {

  /** Tokens shorter than this are masked completely. */
  const MinRevealedLength := 12

  /** `_mask_token`: a short (or empty) token becomes "****"; a longer one keeps
      its first four and last four characters around "...". */
  function MaskToken(token: string): (masked: string)
    ensures token == [] ==> masked == "****"
    ensures |token| < MinRevealedLength ==> masked == "****"
    ensures |masked| == if |token| < MinRevealedLength then 4 else 11
    ensures |token| >= MinRevealedLength ==> masked != token
    ensures |token| >= MinRevealedLength ==>
              masked[..4] == token[..4] && masked[4..7] == "..." && masked[7..] == token[|token| - 4..]
  {
    if token == [] || |token| < MinRevealedLength then "****"
    else token[..4] + "..." + token[|token| - 4..]
  }

  /** The contents of a short token never reach the output. */
  lemma ShortTokensMaskAlike(t: string, u: string)
    requires |t| < MinRevealedLength && |u| < MinRevealedLength
    ensures MaskToken(t) == MaskToken(u)
  {
  }

  /** The output of a long token depends on its first four and last four
      characters only: tokens that agree there mask alike, whatever lies between
      and whatever their lengths. */
  lemma LongTokenRevealsOnlyEnds(t: string, u: string)
    requires |t| >= MinRevealedLength && |u| >= MinRevealedLength
    requires t[..4] == u[..4] && t[|t| - 4..] == u[|u| - 4..]
    ensures MaskToken(t) == MaskToken(u)
  {
  }
}
