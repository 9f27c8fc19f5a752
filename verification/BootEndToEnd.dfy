/** Packaging and updating together: what reaches the flash is the executable that was packaged. */
module BootEndToEnd {
  import opened Bytes
  import Sha1
  import opened Aes
  import opened AesCbc
  import opened BootFormat
  import opened BootFlash
  import opened BootInstall
  import opened BootVerdicts
  import opened Package
  import BootLoader

  /** A device and an update made from the executable `e` for it. */
  predicate IsDelivery(s: Data, base: nat, location: nat, offset: nat, u: Data, key: Key, vector: Block, e: Data) {
    && IsBoard(s, base, location, offset, u) && location % PAGE == 0
    && IsExecutable(e, offset) && IsUpdateOf(u, key, vector, e, offset)
  }

  lemma DeliveryFits(s: Data, base: nat, location: nat, offset: nat, u: Data, key: Key, vector: Block, e: Data)
    requires IsDelivery(s, base, location, offset, u, key, vector, e)
    ensures offset + 64 <= |e| < TWO_32 && |e| % 64 == 0 && |u| == 320 + |e|
    ensures location + |e| <= base + |s| && location - base + WholePages(|e|) <= |s|
  {
    hide EncryptBytes, Sha1.Digest, MetadataBytes, Unpack, Zeroed;
    HashBlocksAreCipherBlocks(|e|);
    ImageFits(s, base, location, |e|);
  }

  /** The installation of a delivery puts the executable in place, and the loader accepts what it finds there. */
  lemma DeliveryInstalls(s: Data, base: nat, location: nat, offset: nat, u: Data, key: Key, vector: Block, e: Data)
    requires IsDelivery(s, base, location, offset, u, key, vector, e) && HashFieldSeen(e, offset)
    ensures location - base + WholePages(|e|) <= |s| && UpdateVerdict(u, key, offset).Accepted?
    ensures AfterInstall(s, base, location, offset, u, key) == Some(Installed(s, location - base, e))
    ensures ExecutableVerdict(Installed(s, location - base, e), base, location, offset) == Accepted(InfoOf(e, offset))
  {
    hide Unpack, Sha1.Digest, ExecutableVerdict, UpdateVerdict, EncryptBytes, DecryptBytes, Installed, Payload;
    hide IsUpdateOf, IsExecutable, HashFieldSeen;
    DeliveryFits(s, base, location, offset, u, key, vector, e);
    UpdateIsAccepted(u, key, vector, e, offset);
    DecryptedParts(u, key, vector, e, offset);
    InstalledImage(s, location - base, e);
    ExecutableIsAccepted(Installed(s, location - base, e), base, location, offset, e);
  }

  /** The version of a packaged executable. */
  function VersionOf(e: Data, offset: nat): Version
    requires offset + 44 <= |e|
  {
    InfoOf(e, offset).version
  }

  /**
   The end-to-end theorem. With the default policy a packaged update is installed exactly when its hash field can be
   seen and flash holds no acceptable executable or an older one; flash then holds the packaged executable, and nothing
   outside its pages has changed. In every other case flash is left as it was. Where the check of flash fails instead of
   coming to a verdict, the update fails, whatever it holds: `ExecutableErrorExactly` says on which flash that is.
  */
  lemma PackagedUpdate(s: Data, base: nat, location: nat, offset: nat, u: Data, key: Key, vector: Block, e: Data)
    requires IsDelivery(s, base, location, offset, u, key, vector, e)
    ensures offset + 44 <= |e| < TWO_32 && location - base + WholePages(|e|) <= |s|
    ensures var (outcome, t) := UpdateResult(s, base, location, offset, u, key, DEFAULT_POLICY);
            var current := ExecutableVerdict(s, base, location, offset);
            if current.Error? then outcome == Failed && t == s
            else if HashFieldSeen(e, offset)
                    && (current.Accepted? ==> VersionNumber(current.info.version) < VersionNumber(VersionOf(e, offset)))
            then outcome == Valid && t == Installed(s, location - base, e)
            else outcome == (if current.Accepted? then Valid else InvalidFirmware) && t == s
  {
    hide ExecutableVerdict, UpdateVerdict, Installed, IsUpdateOf, IsExecutable, HashFieldSeen, AfterInstall, Payload;
    hide VersionNumber, HasWords, WordIn;
    DeliveryFits(s, base, location, offset, u, key, vector, e);
    UpdateIsAccepted(u, key, vector, e, offset);
    if HashFieldSeen(e, offset) {
      DeliveryInstalls(s, base, location, offset, u, key, vector, e);
      AcceptedHasWords(s, base, location, offset);
      VersionHasWords(e, offset);
      ActionByNumber(DEFAULT_POLICY, ExecutableVersion(ExecutableVerdict(s, base, location, offset)),
                     Some(VersionOf(e, offset)));
    }
  }

  lemma VersionHasWords(e: Data, offset: nat)
    requires offset + 44 <= |e|
    ensures HasWords(VersionOf(e, offset))
  {
  }

  lemma AcceptedHasWords(s: Data, base: nat, location: nat, offset: nat)
    requires base <= location && location + offset + 44 <= base + |s| < TWO_32
    ensures var verdict := ExecutableVerdict(s, base, location, offset);
            verdict.Accepted? ==> HasWords(verdict.info.version)
  {
    hide Unpack, Sha1.Digest, Masked;
  }

  /** Flash with a good header, but a length of one: no update whatever replaces what is there. */
  lemma NothingReplacesOddLength(s: Data, base: nat, location: nat, offset: nat, u: Data, key: Key, policy: Policy)
    requires IsBoard(s, base, location, offset, u)
    ensures var t := WithHeader(s, location - base + offset, 1);
            && IsBoard(t, base, location, offset, u)
            && UpdateResult(t, base, location, offset, u, key, policy) == (Failed, t)
  {
    hide ExecutableVerdict, UpdateVerdict, AfterInstall, Add32, WithHeader, WordIn;
    var o := location - base + offset;
    HeaderWords(s, o, 1);
    ExecutableErrorExactly(WithHeader(s, o, 1), base, location, offset);
  }

  /** Installed means: the region is the packaged executable byte for byte, and all other pages are untouched. */
  lemma InstalledDelivery(s: Data, base: nat, location: nat, offset: nat, u: Data, key: Key, vector: Block, e: Data)
    requires IsDelivery(s, base, location, offset, u, key, vector, e)
    ensures location - base + WholePages(|e|) <= |s|
    ensures var o, t := location - base, Installed(s, location - base, e);
            t[o..o + |e|] == e && t[..o] == s[..o] && t[o + WholePages(|e|)..] == s[o + WholePages(|e|)..]
  {
    hide Installed, IsUpdateOf, IsExecutable;
    DeliveryFits(s, base, location, offset, u, key, vector, e);
    InstalledImage(s, location - base, e);
  }

  /** For every update whatever: a valid outcome leaves an executable that the loader accepts. */
  lemma ValidMeansRunnable(s: Data, base: nat, location: nat, offset: nat, u: Data, key: Key, policy: Policy)
    requires IsBoard(s, base, location, offset, u)
    requires UpdateResult(s, base, location, offset, u, key, policy).0 == Valid
    ensures IsBoard(UpdateResult(s, base, location, offset, u, key, policy).1, base, location, offset, u)
    ensures ExecutableVerdict(UpdateResult(s, base, location, offset, u, key, policy).1, base, location, offset).Accepted?
  {
    hide ExecutableVerdict, UpdateVerdict, AfterInstall;
  }

  /** For every update whatever: without a valid one, flash does not change. */
  lemma OnlyAcceptedUpdatesWrite(s: Data, base: nat, location: nat, offset: nat, u: Data, key: Key, policy: Policy)
    requires IsBoard(s, base, location, offset, u) && !UpdateVerdict(u, key, offset).Accepted?
    ensures UpdateResult(s, base, location, offset, u, key, policy).1 == s
  {
    hide ExecutableVerdict, UpdateVerdict, AfterInstall;
  }

  /** Running the same update again changes nothing: the installed version is now the same. */
  lemma SecondRunChangesNothing(s: Data, base: nat, location: nat, offset: nat, u: Data, key: Key, vector: Block, e: Data)
    requires IsDelivery(s, base, location, offset, u, key, vector, e)
    requires UpdateResult(s, base, location, offset, u, key, DEFAULT_POLICY).0 == Valid
    ensures var t := UpdateResult(s, base, location, offset, u, key, DEFAULT_POLICY).1;
            IsBoard(t, base, location, offset, u)
            && UpdateResult(t, base, location, offset, u, key, DEFAULT_POLICY) == (Valid, t)
  {
    hide ExecutableVerdict, UpdateVerdict, Installed, IsUpdateOf, IsExecutable, HashFieldSeen, AfterInstall, UpdateResult;
    var (outcome, t) := UpdateResult(s, base, location, offset, u, key, DEFAULT_POLICY);
    ValidMeansRunnable(s, base, location, offset, u, key, DEFAULT_POLICY);
    PackagedUpdate(s, base, location, offset, u, key, vector, e);
    PackagedUpdate(t, base, location, offset, u, key, vector, e);
    if t != s {
      DeliveryInstalls(s, base, location, offset, u, key, vector, e);
    }
  }

  /** The whole journey on erased flash: package a linked executable, then let the boot loader update. */
  method PackageThenUpdate(data: Data, offset: nat, key: Key, flash: Flash, location: nat)
    returns (outcome: Outcome, ghost e: Data)
    requires HasMetadata(data, offset) && |data| + 67 + 320 < TWO_32 && offset + 300 < TWO_32
    requires InOnePiece(|data|, offset + 24, HASH_SIZE)
    requires flash.Valid() && flash.memory[..] == Ones(flash.memory.Length) && location % PAGE == 0
    requires flash.base <= location && location + |data| + 67 <= flash.base + flash.memory.Length
    modifies flash`log, flash.memory
    ensures outcome == Valid
    ensures IsExecutable(e, offset) && offset + 44 <= |data| && IsPackagingOf(data, offset, e)
    ensures location - flash.base + |e| <= flash.memory.Length
    ensures flash.memory[location - flash.base..location - flash.base + |e|] == e
  {
    hide IsExecutable, IsPackagingOf, IsUpdateOf, Installed, UpdateResult, ExecutableVerdict, HasMetadata;
    hide HashFieldSeen, Ones, Unpack, Sha1.Digest;
    ghost var s := flash.memory[..];
    MetadataFits(data, offset);
    var executable, package, vector, ok := PackageAll(data, offset, key);
    e := executable;
    ExecutableFits(data, offset, e);
    PackagedIsSeen(data, offset, e);
    var update := new bv8[|package|](i requires 0 <= i < |package| => package[i]);
    assert update[..] == package;
    UpdateSize(package, key, vector, e, offset);
    var loader := new BootLoader.Loader(flash, update, key, location, offset, DEFAULT_POLICY);
    outcome := loader.Update();
    ErasedFlash(s, flash.base, location, offset);
    PackagedUpdate(s, flash.base, location, offset, package, key, vector, e);
    InstalledDelivery(s, flash.base, location, offset, package, key, vector, e);
  }

  lemma ErasedFlash(s: Data, base: nat, location: nat, offset: nat)
    requires s == Ones(|s|) && base <= location && location + offset + 44 <= base + |s| < TWO_32
    ensures ExecutableVerdict(s, base, location, offset) == Rejected(HeaderMagic)
  {
    hide ExecutableVerdict;
    ErasedIsRejected(s, base, location, offset);
  }

  /** Where the hash field falls does not depend on the padding. */
  lemma PackagedIsSeen(data: Data, offset: nat, e: Data)
    requires offset + 44 <= |data| && IsExecutable(e, offset) && IsPackagingOf(data, offset, e)
    requires InOnePiece(|data|, offset + 24, HASH_SIZE)
    ensures HashFieldSeen(e, offset)
  {
    hide Sha1.Digest;
  }

  lemma UpdateSize(u: Data, key: Key, vector: Block, e: Data, offset: nat)
    requires IsExecutable(e, offset) && offset + 44 <= |e| < TWO_32 && |e| % 64 == 0
    requires IsUpdateOf(u, key, vector, e, offset)
    ensures |u| == 320 + |e| && |u| < TWO_32
  {
    hide Sha1.Digest, EncryptBytes, MetadataBytes;
    HashBlocksAreCipherBlocks(|e|);
  }
}
