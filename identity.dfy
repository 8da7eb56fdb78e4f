/**
 * `getWifiInfo()`: a made-up network name and password built from the
 * navigator's hints. The host reads are inputs; a read the browser leaves
 * `undefined` is `None`.
 */
module Identity {
  import opened Options
  import opened Ascii
  import opened Radix

  /**
   * The Network Information object. `downlink` is already
   * `Math.floor(connection.downlink * 100)`; it is `None` when the browser
   * leaves `downlink` undefined.
   */
  datatype Connection = Connection(effectiveType: Option<string>, downlink: Option<nat>)

  /** The navigator hints the function reads. */
  datatype Navigator = Navigator(
    connection: Option<Connection>,
    hardwareConcurrency: Option<nat>,
    deviceMemory: Option<nat>)

  /** The record returned to the scan flow. */
  datatype WifiInfo = WifiInfo(ssid: string, password: string)

  const DefaultHardwareConcurrency: nat := 4
  const DefaultDeviceMemory: nat := 8
  const SeedFactor: nat := 12345
  const NoConnectionSsid: string := "Network_Link"
  const SsidPrefix: string := "System_"
  const PasswordPrefix: string := "KEY-"

  /** What the function returns when its body throws. */
  const Fallback: WifiInfo := WifiInfo("Unknown_Network", "ERROR-ACCESS-DENIED")

  /** `v || default`: an absent or zero hint falls back to the default. */
  function OrDefault(v: Option<nat>, default: nat): (r: nat)
    ensures v.Some? && v.value != 0 ==> r == v.value
    ensures v.None? || v.value == 0 ==> r == default
    ensures default > 0 ==> r > 0
  {
    if v.Some? && v.value != 0 then v.value else default
  }

  /**
   * The body throws exactly when a connection exists without an
   * effectiveType: that is where computing `derivedSSID` throws.
   */
  predicate Throws(nav: Navigator): (r: bool)
    ensures r <==> DerivedSsid(nav.connection).Thrown?
  {
    nav.connection.Some? && nav.connection.value.effectiveType.None?
  }

  /** `${Math.floor(connection.downlink * 100)}`: decimal digits, or "NaN". */
  function DownlinkText(downlink: Option<nat>): (r: string)
    ensures downlink.None? ==> r == "NaN"
    ensures downlink.Some? ==> Canonical(r, 10) && Value(r, 10) == downlink.value
  {
    match downlink
    case None => "NaN"
    case Some(d) =>
      ValueOfToRadix(d, 10);
      ToRadix(d, 10)
  }

  /** The `derivedSSID` local: a default, or the connection's type and speed. */
  function DerivedSsid(connection: Option<Connection>): (r: Result<string>)
    ensures r.Thrown? <==> connection.Some? && connection.value.effectiveType.None?
    ensures connection.None? ==> r == Ok(NoConnectionSsid)
  {
    match connection
    case None => Ok(NoConnectionSsid)
    case Some(c) =>
      match c.effectiveType
      case None => Thrown("TypeError: cannot read toUpperCase of undefined")
      case Some(t) => Ok(ToUpperCase(t) + "_" + DownlinkText(c.downlink))
  }

  /** `(hw * mem * 12345).toString(16).toUpperCase()`. */
  function Seed(hw: nat, mem: nat): (seed: string)
    ensures Canonical(seed, 16) && Value(seed, 16) == hw * mem * SeedFactor
    ensures forall i :: 0 <= i < |seed| ==> !IsLower(seed[i])
  {
    var hex := ToRadix(hw * mem * SeedFactor, 16);
    ValueOfToRadix(hw * mem * SeedFactor, 16);
    ValueOfUpper(hex, 16);
    ToUpperCase(hex)
  }

  /** `s.substring(start, end)`: both ends clamped to [0, |s|], swapped if reversed. */
  function Substring(s: string, start: int, end: int): (r: string)
    ensures |r| <= |s|
  {
    var a := Clamp(start, |s|);
    var b := Clamp(end, |s|);
    if a <= b then s[a..b] else s[b..a]
  }

  /** With ordered non-negative ends, substring is the slice between the clamped ends. */
  lemma SubstringOrdered(s: string, start: nat, end: nat)
    requires start <= end
    ensures Substring(s, start, end) == s[Min(start, |s|)..Min(end, |s|)]
  {
  }

  /** substring does not care which end comes first. */
  lemma SubstringSymmetric(s: string, start: int, end: int)
    ensures Substring(s, start, end) == Substring(s, end, start)
  {
  }

  /** How `substring` treats one end: negative ends become 0, ends past the length become it. */
  function Clamp(x: int, len: nat): (r: nat)
    ensures r <= len
    ensures 0 <= x <= len ==> r == x
    ensures x < 0 ==> r == 0
    ensures x > len ==> r == len
  {
    if x < 0 then 0 else if x > len then len else x
  }

  function Min(a: nat, b: nat): nat { if a < b then a else b }

  /** `KEY-${seed.substring(0, 4)}-${seed.substring(4, 8)}`. */
  function Password(seed: string): (p: string)
    ensures |p| >= |PasswordPrefix| && p[..|PasswordPrefix|] == PasswordPrefix
    ensures p == PasswordPrefix + seed[..Min(4, |seed|)] + "-" + seed[Min(4, |seed|)..Min(8, |seed|)]
    ensures |p| == 5 + Min(8, |seed|)
  {
    PasswordPrefix + Substring(seed, 0, 4) + "-" + Substring(seed, 4, 8)
  }

  /** `getWifiInfo()`, with the try/catch fallback. */
  function GetWifiInfo(nav: Navigator): (info: WifiInfo)
    ensures info == Fallback <==> Throws(nav)
    ensures !Throws(nav) ==> |info.ssid| > |SsidPrefix| && info.ssid[..|SsidPrefix|] == SsidPrefix
    ensures !Throws(nav) ==> |info.password| > |PasswordPrefix| && info.password[..|PasswordPrefix|] == PasswordPrefix
    ensures !Throws(nav) ==> info.password == Password(Seed(
              OrDefault(nav.hardwareConcurrency, DefaultHardwareConcurrency),
              OrDefault(nav.deviceMemory, DefaultDeviceMemory)))
    ensures nav.connection.None? ==> info.ssid == SsidPrefix + NoConnectionSsid
  {
    match DerivedSsid(nav.connection)
    case Thrown(_) => Fallback
    case Ok(derived) =>
      var hw := OrDefault(nav.hardwareConcurrency, DefaultHardwareConcurrency);
      var mem := OrDefault(nav.deviceMemory, DefaultDeviceMemory);
      var info := WifiInfo(SsidPrefix + derived, Password(Seed(hw, mem)));
      assert info.ssid[0] != Fallback.ssid[0];
      info
  }

  /** The two groups of the password for a five-digit and a four-digit seed. */
  lemma PasswordOf(seed: string)
    requires seed == "60720" || seed == "3039"
    ensures seed == "60720" ==> Password(seed) == "KEY-6072-0"
    ensures seed == "3039" ==> Password(seed) == "KEY-3039-"
  {
    assert Substring(seed, 0, 4) == seed[..4];
    assert Substring(seed, 4, 8) == seed[4..];
  }

  /** 395040, the default product 4 * 8 * 12345, is 0x60720. */
  lemma DefaultSeed()
    ensures Seed(DefaultHardwareConcurrency, DefaultDeviceMemory) == "60720"
  {
    assert ToRadix(6, 16) == "6";
    assert ToRadix(96, 16) == "60";
    assert ToRadix(1543, 16) == "607";
    assert ToRadix(24690, 16) == "6072";
    assert ToRadix(395040, 16) == "60720";
    ToUpperCaseNoLower("60720");
  }

  /** With every hint absent: "System_Network_Link" and "KEY-6072-0". */
  lemma DefaultNavigator()
    ensures GetWifiInfo(Navigator(None, None, None)) == WifiInfo("System_Network_Link", "KEY-6072-0")
  {
    var nav := Navigator(None, None, None);
    assert GetWifiInfo(nav).ssid == "System_Network_Link";
    assert GetWifiInfo(nav).password == Password(Seed(DefaultHardwareConcurrency, DefaultDeviceMemory));
    DefaultSeed();
    PasswordOf("60720");
  }

  /** One core and 1 GB: 12345 is 0x3039. */
  lemma MinimalSeed()
    ensures Seed(1, 1) == "3039"
  {
    assert ToRadix(3, 16) == "3";
    assert ToRadix(48, 16) == "30";
    assert ToRadix(771, 16) == "303";
    assert ToRadix(12345, 16) == "3039";
    ToUpperCaseNoLower("3039");
  }

  /** A seed of at most four digits leaves the second group empty. */
  lemma ShortSeedPassword()
    ensures GetWifiInfo(Navigator(None, Some(1), Some(1))).password == "KEY-3039-"
  {
    var nav := Navigator(None, Some(1), Some(1));
    assert GetWifiInfo(nav).password == Password(Seed(1, 1));
    MinimalSeed();
    PasswordOf("3039");
  }

  /** The seed determines the product hw * mem and is determined by it. */
  lemma SeedDeterminesProduct(hw1: nat, mem1: nat, hw2: nat, mem2: nat)
    ensures Seed(hw1, mem1) == Seed(hw2, mem2) <==> hw1 * mem1 == hw2 * mem2
  {
  }

  /** A zero hint is falsy, so it reads as an absent one. */
  lemma ZeroHintIsAbsent(connection: Option<Connection>)
    ensures GetWifiInfo(Navigator(connection, Some(0), Some(0)))
         == GetWifiInfo(Navigator(connection, None, None))
  {
  }

  /** With a connection that has a type, the SSID is its upper-cased type and speed. */
  lemma ConnectionSsid(nav: Navigator, t: string)
    requires nav.connection.Some? && nav.connection.value.effectiveType == Some(t)
    ensures GetWifiInfo(nav).ssid == SsidPrefix + ToUpperCase(t) + "_" + DownlinkText(nav.connection.value.downlink)
  {
  }

  /** The password depends only on the hardware hints, never on the connection. */
  lemma PasswordIgnoresConnection(nav: Navigator, c: Option<Connection>)
    requires !Throws(nav) && !Throws(nav.(connection := c))
    ensures GetWifiInfo(nav.(connection := c)).password == GetWifiInfo(nav).password
  {
  }
}
