/**
 * Names the per-peripheral step builds (`main`, the body of the loop over
 * peripherals): the digest id, the content file name, the reference line
 * and the group directory; and the boundary to code outside the model.
 */
module Naming {
  import opened Wrappers
  import opened Svd
  import opened Strings

  predicate IsLowerHex(c: char) {
    '0' <= c <= '9' || 'a' <= c <= 'f'
  }

  /** `format!("{:?}", md5::compute(..))`: 32 lower-case hex digits. */
  type HexDigest = s: string | |s| == 32 && forall i :: 0 <= i < |s| ==> IsLowerHex(s[i])
    witness "00000000000000000000000000000000"

  /**
   * The code the model does not see, taken as given functions:
   * `serde_yaml::to_string` of a register list, the md5 hex digest of a
   * text, and the similarity ratio of two stored texts as `{:5.1}` prints it.
   * The source panics when serialisation fails; that path is not modelled.
   */
  datatype Foreign = Foreign(
    toYaml: seq<RegisterCluster> -> string,
    md5Hex: string -> HexDigest,
    ratioText: (string, string) -> string)

  /** The command-line switches that reach the core. */
  datatype Flags = Flags(keepDescriptions: bool, showName: bool, comparePercent: bool)

  /** A file under the output root: its group directory and its name in it. */
  type Path = (string, string)

  /** The reference log of a group. */
  const LogName: string := "peripherals.txt"

  /**
   * The digest id: the first 8 hex digits of the structural digest, then
   * either the first 8 of the skeleton digest, or the device and peripheral
   * names in show-name mode; an underscore between the parts.
   */
  function DigestId(digest1: HexDigest, digest2: HexDigest, deviceName: string,
                    peripheralName: string, showName: bool): (id: string)
    ensures |id| >= 9 && id[..8] == digest1[..8] && id[8] == '_'
    ensures !showName ==> id[9..] == digest2[..8] && |id| == 17
    ensures showName ==> id[9..] == deviceName + "_" + peripheralName
  {
    if showName then digest1[..8] + "_" + deviceName + "_" + peripheralName
    else digest1[..8] + "_" + digest2[..8]
  }

  /** Without show-name mode the id is hex digits and one underscore, so it holds no space and no line break. */
  lemma DigestIdAlphabet(digest1: HexDigest, digest2: HexDigest, deviceName: string, peripheralName: string)
    ensures var id := DigestId(digest1, digest2, deviceName, peripheralName, false);
            && (forall i :: 0 <= i < |id| ==> id[i] == '_' || IsLowerHex(id[i]))
            && ' ' !in id && '\n' !in id && '\r' !in id
  {
    var id := DigestId(digest1, digest2, deviceName, peripheralName, false);
    forall i | 0 <= i < |id| ensures id[i] == '_' || IsLowerHex(id[i]) {
      if i < 8 {
        assert id[i] == digest1[i];
      } else if i > 8 {
        assert id[i] == digest2[i - 9];
      }
    }
  }

  /** Two ids made without show-name mode are equal exactly when both digest prefixes are. */
  lemma DigestIdInjective(a1: HexDigest, a2: HexDigest, b1: HexDigest, b2: HexDigest,
                          da: string, pa: string, db: string, pb: string)
    ensures DigestId(a1, a2, da, pa, false) == DigestId(b1, b2, db, pb, false)
        <==> a1[..8] == b1[..8] && a2[..8] == b2[..8]
  {
    var ia, ib := DigestId(a1, a2, da, pa, false), DigestId(b1, b2, db, pb, false);
    if ia == ib {
      assert ia[..8] == ib[..8] && ia[9..] == ib[9..];
    }
  }

  /** The content file of an id. */
  function YamlName(id: string): (name: string)
    ensures name != LogName && |name| == |id| + 5 && name[..|id|] == id
  {
    var name := id + ".yaml";
    assert name[|name| - 1] == 'l' && LogName[|LogName| - 1] == 't';
    name
  }

  /** The line appended to the group's log. */
  function ReferLine(id: string, peripheralName: string, deviceName: string): string {
    id + " " + peripheralName + " " + deviceName + "\n"
  }

  /** The group directory: the group name, or the peripheral's own name without one. */
  function GroupKey(p: Peripheral): (g: string)
    ensures p.groupName.Some? ==> g == p.groupName.value
    ensures p.groupName.None? ==> g == p.name
  {
    p.groupName.GetOr(p.name)
  }

  /** The log line without its newline, as `BufRead::lines` gives it back. */
  function ReferText(id: string, peripheralName: string, deviceName: string): (t: string)
    ensures ReferLine(id, peripheralName, deviceName) == t + "\n"
  {
    id + " " + peripheralName + " " + deviceName
  }

  /** Reading a reference line back, its first token is the id it was made from. */
  lemma ReferTextFirstToken(id: string, peripheralName: string, deviceName: string)
    requires ' ' !in id
    ensures FirstToken(ReferText(id, peripheralName, deviceName)) == id
  {
    var line := ReferText(id, peripheralName, deviceName);
    var d := FirstToken(line);
    assert line[..|id|] == id && line[|id|] == ' ';
    assert d == line[..|d|];
  }
}
