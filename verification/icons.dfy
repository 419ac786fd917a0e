/** The emoji that open the embed's information and warning lines, kept as opaque literals. */
module Icons {
  /** `ℹ️`: the information sign and its emoji presentation selector. */
  const InfoIcon: string := "\U{2139}\U{FE0F}"

  /** `⚠️`: the warning sign and its emoji presentation selector. */
  const WarnIcon: string := "\U{26A0}\U{FE0F}"
}
