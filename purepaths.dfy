/**
 * The pieces of Python's `pathlib.PurePath` the instance manager relies on:
 * `suffix`, `with_suffix`, and the sidecar name built from them. Names are
 * single path segments.
 */
module PurePaths {

  /** The reserved extension of sidecar metadata files. */
  const MetaSuffix: string := ".ameta"

  /** `name.rfind('.')`: the index of the last dot, or -1 when there is none. */
  function RFindDot(name: string): (i: int)
    ensures -1 <= i < |name|
    ensures i >= 0 ==> name[i] == '.'
    ensures forall j :: i < j < |name| ==> name[j] != '.'
  {
    if name == [] then -1
    else if name[|name| - 1] == '.' then |name| - 1
    else RFindDot(name[..|name| - 1])
  }

  /**
   * `PurePath.suffix`: from the last dot to the end, provided that dot is neither
   * the first nor the last character; otherwise empty. A dotfile such as
   * ".ameta" therefore has no suffix.
   */
  function Suffix(name: string): (s: string)
    ensures s == [] || (2 <= |s| < |name| && s[0] == '.' && name[|name| - |s|..] == s)
    ensures s != [] ==> forall j :: 1 <= j < |s| ==> s[j] != '.'
  {
    var i := RFindDot(name);
    if 0 < i < |name| - 1 then name[i..] else ""
  }

  /** A suffix `with_suffix` accepts: empty, or a dot followed by something, without a separator. */
  predicate ValidSuffix(s: string)
  {
    (s == [] || (|s| >= 2 && s[0] == '.')) && '/' !in s
  }

  /** `PurePath.with_suffix(suffix)` applied to a non-empty name. */
  function WithSuffix(name: string, suffix: string): (r: string)
    requires name != [] && ValidSuffix(suffix)
    ensures |r| == |name| - |Suffix(name)| + |suffix|
    ensures r[..|name| - |Suffix(name)|] == name[..|name| - |Suffix(name)|]
    ensures r[|name| - |Suffix(name)|..] == suffix
  {
    var old_ := Suffix(name);
    if old_ == [] then name + suffix
    else name[..|name| - |old_|] + suffix
  }

  /** `name.with_suffix(name.suffix + ".ameta")`: the full name with ".ameta" appended. */
  function SidecarName(name: string): (r: string)
    requires name != [] && '/' !in name
    ensures r == name + MetaSuffix
  {
    var s := Suffix(name);
    assert '/' !in s by {
      forall j | 0 <= j < |s| ensures s[j] != '/' {
        assert s[j] == name[|name| - |s| + j];
      }
    }
    WithSuffix(name, s + MetaSuffix)
  }

  /** The name ends in ".ameta" and has at least one character before it. */
  predicate EndsWithMeta(name: string)
  {
    |name| > |MetaSuffix| && name[|name| - |MetaSuffix|..] == MetaSuffix
  }

  /** A name's suffix is ".ameta" exactly when it ends in ".ameta" after at least one character. */
  lemma SuffixIsMetaIff(name: string)
    ensures Suffix(name) == MetaSuffix <==> EndsWithMeta(name)
  {
    var n := |name|;
    if n > 6 && name[n - 6..] == MetaSuffix {
      assert name[n - 6] == '.';
      forall j | n - 6 < j < n ensures name[j] != '.' {
        assert name[j] == MetaSuffix[j - (n - 6)];
      }
      var i := RFindDot(name);
      assert i == n - 6;
    }
  }

  /** Every sidecar name is itself excluded from the scan. */
  lemma SidecarNameIsMeta(name: string)
    requires name != []
    ensures Suffix(name + MetaSuffix) == MetaSuffix && EndsWithMeta(name + MetaSuffix)
  {
    var r := name + MetaSuffix;
    assert r[|r| - 6..] == MetaSuffix;
    SuffixIsMetaIff(r);
  }

  /** The suffix test is exact: a dotfile named ".ameta" and an upper-case ".AMETA" both pass. */
  lemma SuffixTestIsLiteral()
    ensures Suffix(".ameta") == ""
    ensures Suffix("scan.AMETA") != MetaSuffix
    ensures Suffix("scan.dat.ameta") == MetaSuffix
  {
    SuffixIsMetaIff(".ameta");
    SuffixIsMetaIff("scan.AMETA");
    SuffixIsMetaIff("scan.dat.ameta");
  }
}
