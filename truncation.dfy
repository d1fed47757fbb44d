/**
  The per-file display cap: a file over 30 KiB (counted in UTF-8 bytes) is
  cut to its first 30720 code units and followed by a notice saying how
  many KiB were left out.
*/
module Truncation {
  import opened Strings

  const MaxDisplayFileSize: nat := 30 * 1024

  datatype Displayed = Displayed(content: string, displaySize: nat, isTruncated: bool)

  function Min(a: nat, b: nat): nat {
    if a < b then a else b
  }

  /** The notice appended to a truncated file; `remaining` is in bytes. */
  function TruncationNotice(remaining: nat): string {
    "\n\nThis file is too large, truncated at 30KB. There is " + FormatKiB(remaining) + "KB remaining."
  }

  /**
    What the ingestion loop displays of a file of `size` UTF-8 bytes: small
    files pass through, larger ones become a prefix of at most 30720 code
    units followed by the notice, and count as 30720 displayed bytes.
  */
  function Truncate(content: string, size: nat): (d: Displayed)
    ensures d.isTruncated <==> size > MaxDisplayFileSize
    ensures d.displaySize == Min(size, MaxDisplayFileSize)
    ensures !d.isTruncated ==> d.content == content
    ensures d.isTruncated ==>
      StartsWith(d.content, content[..Min(|content|, MaxDisplayFileSize)])
      && d.content[Min(|content|, MaxDisplayFileSize)..] == TruncationNotice(size - MaxDisplayFileSize)
  {
    if size > MaxDisplayFileSize then
      var processed := content[..Min(|content|, MaxDisplayFileSize)]
                       + TruncationNotice(size - MaxDisplayFileSize);
      Displayed(processed, MaxDisplayFileSize, true)
    else
      Displayed(content, size, false)
  }

  /** A file within the cap is within the cap in code units too. */
  lemma SmallFileFitsInCap(content: string)
    requires Utf8Length(content) <= MaxDisplayFileSize
    ensures |content| <= MaxDisplayFileSize
    ensures Truncate(content, Utf8Length(content)) == Displayed(content, Utf8Length(content), false)
  {
  }

  /** Truncation never displays more bytes than the file has. */
  lemma DisplayedWithinOriginal(content: string, size: nat)
    ensures Truncate(content, size).displaySize <= size
    ensures Truncate(content, size).displaySize <= MaxDisplayFileSize
  {
  }

  /** The 40 KiB case: the first 30720 units and "10.00" KiB remaining. */
  lemma Truncate40KiB(content: string)
    requires |content| == 40960
    ensures Truncate(content, 40960) == Displayed(
      content[..30720]
      + "\n\nThis file is too large, truncated at 30KB. There is 10.00KB remaining.",
      30720, true)
  {
    assert KiBHundredths(10240) == 1000;
    assert NatToString(10) == "10";
    assert FormatKiB(10240) == "10.00";
  }
}
