/** The sharded layout that files an object by its checksum. */
module Layout {

  /** A slice clamped to the string. */
  function Slice(s: string, start: nat, end: nat): string
    requires start <= end
  {
    var hi := if end < |s| then end else |s|;
    var lo := if start < hi then start else hi;
    s[lo..hi]
  }

  /** The path components of an object below `.objects`: three shards of three characters and the rest. */
  function Sharded(hex: string): seq<string> {
    [Slice(hex, 0, 3), Slice(hex, 3, 6), Slice(hex, 6, 9), if |hex| < 9 then "" else hex[9..]]
  }
}
