/**
 * Extraction of the snapshot date from a file name: the first substring
 * shaped like `DDDD-DD-DD` (four digits, a hyphen, two digits, a hyphen,
 * two digits), found by scanning the name from the left.
 */
module FilenameDate {
  import opened Wrappers

  /** Length of a date-shaped substring. */
  const DateWidth := 10

  predicate IsDigit(c: char) {
    '0' <= c <= '9'
  }

  /** Character `c` fits position `k` of the pattern: a hyphen at 4 and 7, a digit elsewhere. */
  predicate FitsAt(c: char, k: int) {
    if k == 4 || k == 7 then c == '-' else IsDigit(c)
  }

  /**
   * A date-shaped substring of `s` starts at offset `i`: each of the ten
   * characters from there fits its position of the pattern.
   */
  predicate DateAt(s: string, i: int) {
    && 0 <= i
    && i + DateWidth <= |s|
    && FitsAt(s[i], 0) && FitsAt(s[i + 1], 1) && FitsAt(s[i + 2], 2) && FitsAt(s[i + 3], 3)
    && FitsAt(s[i + 4], 4) && FitsAt(s[i + 5], 5) && FitsAt(s[i + 6], 6) && FitsAt(s[i + 7], 7)
    && FitsAt(s[i + 8], 8) && FitsAt(s[i + 9], 9)
  }

  /** The least offset at or after `i` where a date-shaped substring starts. */
  function ScanFrom(s: string, i: nat): (r: Option<nat>)
    decreases |s| - i
    ensures r.Some? ==> i <= r.value && DateAt(s, r.value)
    ensures r.Some? ==> forall j :: i <= j < r.value ==> !DateAt(s, j)
    ensures r.None? ==> forall j :: i <= j ==> !DateAt(s, j)
  {
    if |s| < i + DateWidth then None
    else if DateAt(s, i) then Some(i)
    else ScanFrom(s, i + 1)
  }

  /**
   * The date a snapshot file name carries: the leftmost date-shaped
   * substring, or None when the name holds none.
   */
  function ExtractTimestamp(filename: string): (r: Option<string>)
    ensures r.None? <==> forall i :: !DateAt(filename, i)
    ensures r.Some? ==>
      exists i :: && DateAt(filename, i)
                  && r.value == filename[i..i + DateWidth]
                  && forall j :: 0 <= j < i ==> !DateAt(filename, j)
    ensures r.Some? ==> DateAt(r.value, 0) && |r.value| == DateWidth
  {
    match ScanFrom(filename, 0)
    case Some(i) => Some(filename[i..i + DateWidth])
    case None => None
  }

  /** A name without any digit holds no date. */
  lemma NoDigitNoDate(s: string)
    requires forall k :: 0 <= k < |s| ==> !IsDigit(s[k])
    ensures ExtractTimestamp(s) == None
  {
  }

  /** No date-shaped substring starts inside a digit-free prefix. */
  lemma NoDateInPrefix(prefix: string, rest: string)
    requires forall k :: 0 <= k < |prefix| ==> !IsDigit(prefix[k])
    ensures forall j :: 0 <= j < |prefix| ==> !DateAt(prefix + rest, j)
  {
    var s := prefix + rest;
    forall j | 0 <= j < |prefix| ensures !DateAt(s, j) {
      assert s[j] == prefix[j];
    }
  }

  /**
   * A snapshot file name `{repo}-{metric}-{date}.json` in which no date-shaped
   * substring starts before the date yields exactly that date.
   */
  lemma ExtractsSnapshotDate(prefix: string, date: string, suffix: string)
    requires forall j :: 0 <= j < |prefix| ==> !DateAt(prefix + date + suffix, j)
    requires |date| == DateWidth && DateAt(date, 0)
    ensures ExtractTimestamp(prefix + date + suffix) == Some(date)
  {
    var s := prefix + date + suffix;
    var n := |prefix|;
    assert s[n..n + DateWidth] == date;
    assert DateAt(s, n);
    var r := ScanFrom(s, 0);
    assert r.value == n;
  }

  /** The combiner's own output file name holds no date. */
  lemma CombinedFileHasNoDate()
    ensures ExtractTimestamp("soprano-referrers-combined.json") == None
  {
    var s := "soprano-referrers-combined.json";
    forall k | 0 <= k < |s| ensures !IsDigit(s[k]) {
    }
    NoDigitNoDate(s);
  }
}
