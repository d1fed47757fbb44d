/**
  The content classifier: a decoded text is "binary" when more than 5% of
  its sampled code units are control characters other than tab, line feed
  and carriage return.
*/
module Classifier {

  /** Only the first `SampleLimit` code units are examined. */
  const SampleLimit: nat := 1000

  predicate IsNonPrintable(c: char) {
    c as int == 0 || (c as int < 32 && c != '\t' && c != '\n' && c != '\r')
  }

  function CountNonPrintable(s: string): (n: nat)
    ensures n <= |s|
  {
    if s == [] then 0
    else CountNonPrintable(s[..|s| - 1]) + (if IsNonPrintable(s[|s| - 1]) then 1 else 0)
  }

  function SampleSize(content: string): nat {
    if |content| < SampleLimit then |content| else SampleLimit
  }

  /**
    The classification `isBinaryContent` computes: the share of non-printable
    units in the sample exceeds 5%, in integer form. An empty sample is not
    binary.
  */
  predicate IsBinary(content: string) {
    var n := SampleSize(content);
    CountNonPrintable(content[..n]) * 20 > n
  }

  /** `isBinaryContent`: counts the non-printable units of the sample in a loop. */
  method IsBinaryContent(content: string) returns (binary: bool)
    ensures binary == IsBinary(content)
    ensures binary ==> |content| > 0
  {
    var sampleSize := if |content| < SampleLimit then |content| else SampleLimit;
    var nonPrintable := 0;
    var i := 0;
    while i < sampleSize
      invariant 0 <= i <= sampleSize <= |content|
      invariant nonPrintable == CountNonPrintable(content[..i])
    {
      var charCode := content[i] as int;
      assert content[..i + 1][..i] == content[..i];
      if charCode == 0 || (charCode < 32 && charCode != 9 && charCode != 10 && charCode != 13) {
        nonPrintable := nonPrintable + 1;
      }
      i := i + 1;
    }
    binary := nonPrintable * 20 > sampleSize;
  }

  lemma {:induction false} CountZero(s: string)
    requires forall i :: 0 <= i < |s| ==> !IsNonPrintable(s[i])
    ensures CountNonPrintable(s) == 0
  {
    if s != [] {
      CountZero(s[..|s| - 1]);
    }
  }

  /** Text whose sample holds no control character is never binary. */
  lemma PrintableSampleIsText(content: string)
    requires forall i :: 0 <= i < SampleSize(content) ==> !IsNonPrintable(content[i])
    ensures !IsBinary(content)
  {
    CountZero(content[..SampleSize(content)]);
  }

  /**
    The 5% boundary on a full sample: 50 non-printable units of 1000 is
    text, 51 is binary.
  */
  lemma FivePercentBoundary(content: string)
    requires |content| >= SampleLimit
    ensures CountNonPrintable(content[..SampleLimit]) <= 50 ==> !IsBinary(content)
    ensures CountNonPrintable(content[..SampleLimit]) >= 51 ==> IsBinary(content)
  {
  }
}
