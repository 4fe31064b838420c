/**
 * Values shared by the MeshCore panel's components: optional values, the ASCII
 * string helpers the panel relies on (`lower`, `startswith`, `in`), the records
 * the host reports for its entities, the entries of the direct-link table and
 * the panel's time constants.
 */
module MeshTypes {

  datatype Option<+T> = None | Some(value: T) {
    /** The wrapped value, or `default` when there is none (Python's `dict.get(k, default)`). */
    function GetOr(default: T): T {
      match this
      case Some(v) => v
      case None => default
    }
  }

  /** Lower-cases an ASCII letter and keeps every other character. */
  function LowerChar(c: char): char {
    if 'A' <= c <= 'Z' then (c as int + 32) as char else c
  }

  /** Python's `str.lower()`, restricted to ASCII letters (node keys are hexadecimal). */
  function Lower(s: string): string {
    seq(|s|, i requires 0 <= i < |s| => LowerChar(s[i]))
  }

  /** Python's `s.startswith(prefix)`. */
  predicate StartsWith(s: string, prefix: string) {
    |prefix| <= |s| && s[..|prefix|] == prefix
  }

  /** Python's `sub in s` on strings. */
  predicate Contains(s: string, sub: string)
    decreases |s|
  {
    StartsWith(s, sub) || (|s| > 0 && Contains(s[1..], sub))
  }

  /**
   * One entity state as the host reports it. The entity id itself is not kept:
   * `isContactSensor` says whether it starts with "binary_sensor.meshcore_" and
   * contains "_contact", `isHopsSensor` whether it contains "meshcore_hops_".
   * Attributes that may be missing are optional; `pubkeyPrefix` is "" when
   * missing, `lastAdvert` and `lastMessageTime` are 0 when missing or falsy, and
   * a coordinate is `None` when it is missing or falsy (zero, null, empty).
   */
  datatype EntityState = EntityState(
    isContactSensor: bool,
    isHopsSensor: bool,
    pubkeyPrefix: string,
    advName: Option<string>,
    advLat: Option<real>,
    latitude: Option<real>,
    advLon: Option<real>,
    longitude: Option<real>,
    nodeTypeStr: Option<string>,
    lastAdvert: int,
    lastMessageTime: int,
    pathNodes: seq<string>)

  /** `attrs.get("adv_lat") or attrs.get("latitude")` */
  function Lat(s: EntityState): Option<real> {
    if s.advLat.Some? then s.advLat else s.latitude
  }

  /** `attrs.get("adv_lon") or attrs.get("longitude")` */
  function Lon(s: EntityState): Option<real> {
    if s.advLon.Some? then s.advLon else s.longitude
  }

  /** `attrs.get("adv_name", "Unknown")` */
  function DisplayName(s: EntityState): string {
    s.advName.GetOr("Unknown")
  }

  /** `attrs.get("node_type_str", "Unknown").lower()` */
  function NodeType(s: EntityState): string {
    Lower(s.nodeTypeStr.GetOr("Unknown"))
  }

  /** A contact resolved from a node prefix: what the resolver hands to the exports. */
  datatype NodeInfo = NodeInfo(
    name: string,
    lat: real,
    lon: real,
    pubkey: string,
    nodeType: string,
    lastAdvert: int)

  /** One half-edge of the direct-link table; a persisted entry may lack either field. */
  datatype LinkInfo = LinkInfo(lastSeen: Option<int>, count: Option<int>)

  /** `direct_links`: source prefix -> destination prefix -> half-edge. */
  type LinkTable = map<string, map<string, LinkInfo>>

  const Day: int := 24 * 3600

  /** Retention of link half-edges and last-message times at every save: 7 days. */
  const RetentionSeconds: int := 7 * Day

  /** Age after which a silent contact is removed: DEFAULT_CLEANUP_DAYS = 30 days. */
  const CleanupSeconds: int := 30 * Day

  /** Whether a timestamp `t` lies within `hours` hours before `now` (`now - t <= hours * 3600`). */
  predicate InWindow(now: int, t: int, hours: real) {
    (now - t) as real <= hours * 3600.0
  }
}
