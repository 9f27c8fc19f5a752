/** What an installation leaves in flash, and what an update as a whole does to it. */
module BootInstall {
  import opened Bytes
  import Sha1
  import opened Aes
  import opened AesCbc
  import opened BootFormat
  import opened BootFlash

  // ---------------------------------------------------------------- the contents after an installation

  /** Memory with an image written at `o` and ones from there up to `end`. */
  function Filled(s: Data, o: nat, image: Data, end: nat): (t: Data)
    requires o + |image| <= end <= |s|
    ensures |t| == |s|
  {
    s[..o] + image + Ones(end - o - |image|) + s[end..]
  }

  lemma NothingFilled(s: Data, o: nat)
    requires o <= |s|
    ensures Filled(s, o, [], o) == s
  {
  }

  /** Erasing the next page moves the end of the ones. */
  lemma EraseFilled(s: Data, o: nat, image: Data, end: nat)
    requires o + |image| == end && end + PAGE <= |s|
    ensures var f := Filled(s, o, image, end);
            f[..end] + Ones(PAGE) + f[end + PAGE..] == Filled(s, o, image, end + PAGE)
  {
    assert Ones(0) == [];
    var f := Filled(s, o, image, end);
    assert f[..end] == s[..o] + image;
    assert f[end + PAGE..] == s[end + PAGE..];
  }

  /** Writing into the ones makes the image longer. */
  lemma WriteFilled(s: Data, o: nat, image: Data, end: nat, block: Data)
    requires o + |image| + |block| <= end <= |s|
    ensures Programmed(Filled(s, o, image, end), o + |image|, block) == Filled(s, o, image + block, end)
  {
    hide Cleared, Ones;
    var f, k := Filled(s, o, image, end), o + |image|;
    assert f[k..k + |block|] == Ones(|block|);
    ClearedOnes(block);
    assert f[..k] == s[..o] + image;
    assert f[k + |block|..] == Ones(end - k - |block|) + s[end..];
  }

  /** A length in whole pages. */
  function WholePages(n: nat): (m: nat)
    ensures n <= m < n + PAGE && m % PAGE == 0
  {
    (n + PAGE - 1) / PAGE * PAGE
  }

  lemma OnlyPages(n: nat, m: nat)
    requires n <= m < n + PAGE && m % PAGE == 0
    ensures m == WholePages(n)
  {
  }

  lemma PagesFit(size: nat, o: nat, n: nat)
    requires size % PAGE == 0 && o % PAGE == 0 && o + n <= size
    ensures o + WholePages(n) <= size
  {
    assert size == PAGE * (size / PAGE) && o == PAGE * (o / PAGE);
  }

  /** Memory after an installation: the image, ones up to the end of its last page, everything else as it was. */
  function Installed(s: Data, o: nat, image: Data): (t: Data)
    requires o + WholePages(|image|) <= |s|
    ensures |t| == |s|
  {
    Filled(s, o, image, o + WholePages(|image|))
  }

  lemma InstalledImage(s: Data, o: nat, image: Data)
    requires o + WholePages(|image|) <= |s|
    ensures var t := Installed(s, o, image);
            && t[o..o + |image|] == image && t[..o] == s[..o]
            && t[o + WholePages(|image|)..] == s[o + WholePages(|image|)..]
  {
  }

  // ---------------------------------------------------------------- the decision

  /** The callbacks of `fd_boot_action_interface_t`. */
  datatype Policy = Policy(canUpgrade: (Version, Version) -> bool, canDowngrade: (Version, Version) -> bool,
                           canInstall: Version -> bool)

  /** What `fd_boot_set_update_interface_defaults` fills in. */
  const DEFAULT_POLICY := Policy((from, to) => true, (from, to) => false, to => true)

  /** `fd_boot_version_is_lt`. */
  predicate IsBefore(a: Version, b: Version) {
    if a.major < b.major then true
    else if a.major > b.major then false
    else if a.minor < b.minor then true
    else if a.minor > b.minor then false
    else a.patch < b.patch
  }

  /** Versions are in a line: of two, one is before the other or they are the same. */
  lemma VersionsAreOrdered(a: Version, b: Version, c: Version)
    ensures !IsBefore(a, a)
    ensures IsBefore(a, b) || a == b || IsBefore(b, a)
    ensures IsBefore(a, b) && IsBefore(b, c) ==> IsBefore(a, c)
  {
  }

  /** A version as one number, as its three 32-bit words stand one after the other. */
  function VersionNumber(v: Version): nat {
    (v.major * TWO_32 + v.minor) * TWO_32 + v.patch
  }

  predicate HasWords(v: Version) {
    v.major < TWO_32 && v.minor < TWO_32 && v.patch < TWO_32
  }

  /** The version before is the one with the smaller number. */
  lemma IsBeforeByNumber(a: Version, b: Version)
    requires HasWords(a) && HasWords(b)
    ensures IsBefore(a, b) <==> VersionNumber(a) < VersionNumber(b)
    ensures a == b <==> VersionNumber(a) == VersionNumber(b)
  {
  }

  datatype Action = Nothing | Run | Install

  /** `fd_boot_get_action`. */
  function GetAction(policy: Policy, executable: Option<Version>, update: Option<Version>): Action {
    if executable.Some? && update.Some? then
      if update.value == executable.value then Run
      else if IsBefore(executable.value, update.value) then
        if policy.canUpgrade(executable.value, update.value) then Install else Run
      else if policy.canDowngrade(executable.value, update.value) then Install else Run
    else if executable.Some? then Run
    else if update.Some? then
      if policy.canInstall(update.value) then Install else Nothing
    else Nothing
  }

  /**
   What `fd_boot_get_action` decides, by the numbers of the versions: nothing is installed without an update, and with
   one the policy is asked the question that fits.
  */
  lemma ActionByNumber(policy: Policy, executable: Option<Version>, update: Option<Version>)
    requires (executable.Some? ==> HasWords(executable.value)) && (update.Some? ==> HasWords(update.value))
    ensures GetAction(policy, executable, update) == Install <==>
            && update.Some?
            && match executable {
                 case None => policy.canInstall(update.value)
                 case Some(v) =>
                   || (VersionNumber(v) < VersionNumber(update.value) && policy.canUpgrade(v, update.value))
                   || (VersionNumber(update.value) < VersionNumber(v) && policy.canDowngrade(v, update.value))
               }
    ensures GetAction(policy, executable, update) == Run ==> executable.Some?
    ensures GetAction(policy, executable, update) == Nothing ==> executable.None?
  {
    hide VersionNumber;
    if executable.Some? && update.Some? {
      IsBeforeByNumber(executable.value, update.value);
      IsBeforeByNumber(update.value, executable.value);
    }
  }

  /** `Failed` is `fd_boot_update` returning false; `Invalid` and `Valid` are its results. */
  datatype Outcome = Failed | InvalidFirmware | InvalidUpdate | Valid

  function ExecutableVersion(verdict: Verdict<ExecutableInfo>): Option<Version> {
    if verdict.Accepted? then Some(verdict.info.version) else None
  }

  function UpdateVersion(verdict: Verdict<UpdateInfo>): Option<Version> {
    if verdict.Accepted? then Some(verdict.info.executable.version) else None
  }

  /** What an accepted update looks like to the installer. */
  lemma AcceptedUpdate(u: Data, key: Key, offset: nat)
    requires |u| < TWO_32 && UpdateVerdict(u, key, offset).Accepted?
    ensures 256 <= |u| && |u| % 64 == 0
    ensures UpdateVerdict(u, key, offset).info.executable.length == Sub32(|u|, 320)
    ensures |Payload(u)| % 16 == 0 && |Payload(u)| == (if |u| < 320 then 0 else |u| - 320)
  {
    hide Sha1.Digest, Masked, DecryptBytes, Unpack;
    RoomInPieces(u, ReadUpdateInfo(u));
    HashBlocksAreCipherBlocks(|Payload(u)|);
  }

  /** The executable lies in flash, and an update that fits the storage fits there too. */
  predicate IsBoard(s: Data, base: nat, location: nat, offset: nat, u: Data) {
    && |u| < TWO_32 && base + |s| < TWO_32 && base % PAGE == 0 && |s| % PAGE == 0
    && base <= location && location + offset + 44 <= base + |s|
    && location + |u| <= base + |s| + 320
  }

  lemma ImageFits(s: Data, base: nat, location: nat, n: nat)
    requires base % PAGE == 0 && |s| % PAGE == 0 && location % PAGE == 0 && base <= location && location + n <= base + |s|
    ensures location - base + WholePages(n) <= |s|
  {
    var a, b := location / PAGE, base / PAGE;
    assert location == PAGE * a && base == PAGE * b;
    assert location - base == PAGE * (a - b);
    PagesFit(|s|, location - base, n);
  }

  /** The flash after an image is installed, or nothing when the flasher refuses to erase. */
  function Installation(s: Data, base: nat, location: nat, image: Data): (t: Option<Data>)
    requires base % PAGE == 0 && |s| % PAGE == 0 && base <= location && location + |image| <= base + |s|
    ensures t.Some? ==> |t.value| == |s|
  {
    if image == [] then Some(s)
    else if location % PAGE != 0 then None
    else
      ImageFits(s, base, location, |image|);
      Some(Installed(s, location - base, image))
  }

  function AfterInstall(s: Data, base: nat, location: nat, offset: nat, u: Data, key: Key): (t: Option<Data>)
    requires IsBoard(s, base, location, offset, u) && UpdateVerdict(u, key, offset).Accepted?
    ensures t.Some? ==> |t.value| == |s|
  {
    AcceptedUpdate(u, key, offset);
    Installation(s, base, location, DecryptBytes(key, UpdateVerdict(u, key, offset).info.vector, Payload(u)))
  }

  /** `fd_boot_update`: the outcome and the flash it leaves. */
  function UpdateResult(s: Data, base: nat, location: nat, offset: nat, u: Data, key: Key, policy: Policy): (Outcome, Data)
    requires IsBoard(s, base, location, offset, u)
  {
    var executable, update := ExecutableVerdict(s, base, location, offset), UpdateVerdict(u, key, offset);
    if executable.Error? || update.Error? then (Failed, s)
    else match GetAction(policy, ExecutableVersion(executable), UpdateVersion(update))
      case Nothing => (InvalidFirmware, s)
      case Run => (Valid, s)
      case Install =>
        match AfterInstall(s, base, location, offset, u, key)
        case None => (Failed, s)
        case Some(t) =>
          match ExecutableVerdict(t, base, location, offset)
          case Error => (Failed, t)
          case Rejected(_) => (InvalidUpdate, t)
          case Accepted(_) => (Valid, t)
  }
}
