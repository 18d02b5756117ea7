/**
 * get_valid_filename: the first free "prefix-i.key" with i below MAX_KEYS.
 * The file system is the set of names that exist (file_exists).
 */
module Filenames {
  import opened Wrappers

  /** MAX_KEYS: how many key files one prefix may have. */
  const MaxKeys: nat := 255

  function DigitChar(d: nat): (c: char)
    requires d < 10
    ensures '0' <= c <= '9'
  {
    (('0' as int) + d) as char
  }

  /** The "%d" rendering of a non-negative int: its decimal digits, most significant first, no leading zero. */
  function Decimal(n: nat): (s: string)
    ensures |s| >= 1
    ensures forall k :: 0 <= k < |s| ==> '0' <= s[k] <= '9'
    decreases n
  {
    if n < 10 then [DigitChar(n)] else Decimal(n / 10) + [DigitChar(n % 10)]
  }

  /** The value of a string of decimal digits. */
  function DecimalValue(s: string): nat
    requires forall k :: 0 <= k < |s| ==> '0' <= s[k] <= '9'
    decreases |s|
  {
    if |s| == 0 then 0
    else DecimalValue(s[..|s| - 1]) * 10 + ((s[|s| - 1] as int) - ('0' as int))
  }

  /** Reading back a rendered number gives the number. */
  lemma {:induction false} DecimalRoundTrip(n: nat)
    ensures DecimalValue(Decimal(n)) == n
    decreases n
  {
    if n >= 10 {
      DecimalRoundTrip(n / 10);
      var s := Decimal(n);
      assert s[..|s| - 1] == Decimal(n / 10);
    }
  }

  /** sprintf(filename, "%s-%d.key", prefix, i). */
  function KeyFileName(prefix: string, i: nat): string {
    prefix + "-" + Decimal(i) + ".key"
  }

  /** Different indices name different files, so the search below never tests a name twice. */
  lemma KeyFileNameInjective(prefix: string, i: nat, j: nat)
    ensures KeyFileName(prefix, i) == KeyFileName(prefix, j) ==> i == j
  {
    if KeyFileName(prefix, i) == KeyFileName(prefix, j) {
      var a, b := KeyFileName(prefix, i), KeyFileName(prefix, j);
      assert |Decimal(i)| == |Decimal(j)|;
      assert Decimal(i) == a[|prefix| + 1..|a| - 4];
      assert Decimal(j) == b[|prefix| + 1..|b| - 4];
      DecimalRoundTrip(i);
      DecimalRoundTrip(j);
    }
  }

  /**
   * get_valid_filename: tries prefix-0.key, prefix-1.key, ... while the
   * name exists.  The result is the name for the smallest index below
   * MAX_KEYS whose file does not exist, and NULL exactly when every one of
   * prefix-0.key ... prefix-254.key exists.
   */
  method GetValidFilename(prefix: string, existing: set<string>) returns (r: Option<string>)
    ensures r.None? <==> forall i :: 0 <= i < MaxKeys ==> KeyFileName(prefix, i) in existing
    ensures r.Some? ==>
      exists i :: && 0 <= i < MaxKeys && r.value == KeyFileName(prefix, i)
                  && r.value !in existing
                  && forall j :: 0 <= j < i ==> KeyFileName(prefix, j) in existing
  {
    var i := 0;
    var filename := KeyFileName(prefix, i);
    while filename in existing && i < MaxKeys
      invariant 0 <= i <= MaxKeys
      invariant filename == KeyFileName(prefix, i)
      invariant forall j :: 0 <= j < i ==> KeyFileName(prefix, j) in existing
    {
      i := i + 1;
      filename := KeyFileName(prefix, i);
    }
    if i >= MaxKeys {
      return None;
    }
    return Some(filename);
  }
}
