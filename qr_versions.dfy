/**
 * The QR generator's version table (versions 1 to 4, with the data capacity
 * in characters per error-correction level), version selection and the
 * per-level count of error-correction bytes.
 */
module QrVersions {
  import opened Wrappers

  datatype EcLevel = L | M | Q | H

  /** One entry of QR_VERSIONS: version number, modules per side and capacity per level. */
  datatype VersionInfo = VersionInfo(version: nat, size: nat, capL: nat, capM: nat, capQ: nat, capH: nat)

  function Capacity(v: VersionInfo, level: EcLevel): nat {
    match level
    case L => v.capL
    case M => v.capM
    case Q => v.capQ
    case H => v.capH
  }

  const Versions: seq<VersionInfo> := [
    VersionInfo(1, 21, 17, 14, 11, 7),
    VersionInfo(2, 25, 32, 26, 20, 14),
    VersionInfo(3, 29, 53, 42, 32, 24),
    VersionInfo(4, 33, 78, 62, 46, 34)
  ]

  /** Every entry lists versions in order and has 17 + 4 * version modules per side. */
  lemma VersionsWellFormed()
    ensures forall k :: 0 <= k < |Versions| ==> Versions[k].version == k + 1
    ensures forall k :: 0 <= k < |Versions| ==> Versions[k].size == 17 + 4 * Versions[k].version
  {
  }

  /** Capacities grow with the version at every level. */
  lemma CapacityIncreasing(level: EcLevel, j: nat, k: nat)
    requires j < k < |Versions|
    ensures Capacity(Versions[j], level) < Capacity(Versions[k], level)
  {
  }

  /** `QR_VERSIONS.find(...)` from entry i on: the first entry whose capacity at the level holds n characters. */
  function FindFrom(i: nat, n: nat, level: EcLevel): (r: Option<nat>)
    requires i <= |Versions|
    ensures r.Some? ==> i <= r.value < |Versions| && Capacity(Versions[r.value], level) >= n
    ensures r.Some? ==> forall k :: i <= k < r.value ==> Capacity(Versions[k], level) < n
    ensures r.None? <==> forall k :: i <= k < |Versions| ==> Capacity(Versions[k], level) < n
    decreases |Versions| - i
  {
    if i == |Versions| then None
    else if Capacity(Versions[i], level) >= n then Some(i)
    else FindFrom(i + 1, n, level)
  }

  /** selectVersion: the entry for the smallest version that holds a text of n UTF-16 code units. */
  function SelectVersion(n: nat, level: EcLevel): (r: Option<VersionInfo>)
    ensures r.Some? ==> r.value in Versions && Capacity(r.value, level) >= n
    ensures r.Some? ==> forall v :: v in Versions && v.version < r.value.version ==> Capacity(v, level) < n
    ensures r.None? <==> forall v :: v in Versions ==> Capacity(v, level) < n
  {
    match FindFrom(0, n, level)
    case None => None
    case Some(k) => Some(Versions[k])
  }

  /** No version is found exactly when the text is longer than version 4's capacity at the level. */
  lemma SelectVersionNone(n: nat, level: EcLevel)
    ensures SelectVersion(n, level).None? <==> n > Capacity(Versions[3], level)
  {
    if n > Capacity(Versions[3], level) {
      forall v | v in Versions
        ensures Capacity(v, level) < n
      {
        var k :| 0 <= k < |Versions| && Versions[k] == v;
        if k < 3 {
          CapacityIncreasing(level, k, 3);
        }
      }
    }
  }

  /** getErrorCorrectionBlocks: the level's entry for the version, or the fallback 10 outside versions 1..4. */
  function EcBlocks(level: EcLevel, version: int): (r: nat)
    ensures r > 0
    ensures !(1 <= version <= 4) ==> r == 10
  {
    var row := match level
      case L => [7, 10, 15, 20]
      case M => [10, 16, 26, 18]
      case Q => [13, 22, 18, 26]
      case H => [17, 28, 22, 16];
    if 1 <= version <= 4 then row[version - 1] else 10
  }
}
