/** `EventService.truncateEventTitle`: shortening a title for a calendar cell. */
module EventTitle {

  const Ellipsis := "..."

  /** The title cells of the month view show at most this many characters before the ellipsis. */
  const MaxVisibleSymbolsOfTitle := 16

  /** JavaScript `substring(0, n)`: a negative end counts as 0 and an end past the string as its length. */
  function Prefix(s: string, n: int): (p: string)
    ensures |p| == if n < 0 then 0 else if n > |s| then |s| else n
    ensures p <= s
  {
    if n < 0 then [] else if n > |s| then s else s[..n]
  }

  /**
   * `truncateEventTitle(title, maxLength = 16)`: a title that fits is returned as it is,
   * a longer one is cut to `maxLength` characters followed by "...".
   */
  function TruncateEventTitle(title: string, maxLength: int := MaxVisibleSymbolsOfTitle): (r: string)
    ensures |title| <= maxLength ==> r == title
    ensures |title| > maxLength ==> |r| == (if maxLength < 0 then 0 else maxLength) + 3
    ensures |title| > maxLength ==> r[|r| - 3..] == Ellipsis && r[..|r| - 3] <= title
    ensures |r| <= (if maxLength < 0 then 0 else maxLength) + 3
  {
    if |title| <= maxLength then title else Prefix(title, maxLength) + Ellipsis
  }

  /** The result starts with the first min(|title|, maxLength) characters of the title, so nothing visible is altered. */
  lemma TruncatedKeepsVisiblePrefix(title: string, maxLength: nat)
    ensures var k := if |title| < maxLength then |title| else maxLength;
            title[..k] <= TruncateEventTitle(title, maxLength)
  {
  }

  /** Truncating a truncated title changes nothing: the cut keeps the same prefix and the same ellipsis. */
  lemma TruncateIdempotent(title: string, maxLength: int)
    ensures TruncateEventTitle(TruncateEventTitle(title, maxLength), maxLength) == TruncateEventTitle(title, maxLength)
  {
  }

  /** With the default limit a 17-character title keeps 16 characters and gains the ellipsis. */
  lemma DefaultLimitExample()
    ensures TruncateEventTitle("Quarterly review") == "Quarterly review"
    ensures TruncateEventTitle("Quarterly reviews") == "Quarterly review..."
  {
  }
}
