/**
 The boot loader of fd_boot.c as the client of the link: which operation it asks for next, given all the answers so far.
 Its reads go over the link; its own flash is at hand. An update that the controller starts ends as one from local
 storage does, and a packaged one leaves the packaged executable in flash.
*/
module SplitUpdate {
  import opened Arithmetic
  import opened Bytes
  import Sha1
  import opened Aes
  import opened AesCbc
  import opened BootFormat
  import opened BootFlash
  import opened BootInstall
  import opened BootVerdicts
  import opened BootEndToEnd
  import opened Package
  import SplitBoot

  /** The peripheral: its flash, where the executable lies, the key and the policy. */
  datatype Board = Board(flash: Data, base: nat, location: nat, offset: nat, key: Key, policy: Policy)

  /** The update `u` has a place on the board. */
  predicate Takes(board: Board, u: Data) {
    IsBoard(board.flash, board.base, board.location, board.offset, u)
  }

  /** The board itself is laid out as it must be. */
  predicate IsLaidOut(board: Board) {
    && board.base <= board.location && board.location + board.offset + 44 <= board.base + |board.flash| < TWO_32
  }

  /** Bytes of the link as the bytes that the boot loader works on. */
  function Raw(bytes: seq<byte>): (data: Data)
    ensures |data| == |bytes|
  {
    seq(|bytes|, i requires 0 <= i < |bytes| => ToByte(bytes[i]))
  }

  lemma RawSlice(bytes: seq<byte>, a: nat, b: nat)
    requires a <= b <= |bytes|
    ensures Raw(bytes[a..b]) == Raw(bytes)[a..b]
  {
    hide ToByte;
  }

  // ---------------------------------------------------------------- the client

  /** What the boot loader is reading: header, metadata, trailer, then four ranges piece by piece. */
  datatype Phase =
    | AskStorage | Header | Metadata | Trailer | Whole | Secret | Hashing | AskAgain | Blocks
    | Finished(outcome: Outcome, flash: Data)

  /** The size of the storage, the first bytes of the update, and what has been read of the range at hand. */
  datatype Loader = Loader(phase: Phase, size: nat, head: Data, seen: Data)

  function Info(l: Loader): UpdateInfo
    requires |l.head| == 84
  {
    ReadUpdateInfo(l.head)
  }

  /** `Room`, by the size alone. */
  function RoomOf(size: nat, info: UpdateInfo): nat
    requires size < TWO_32
  {
    Sub32(size, FOOTER_SIZE + METADATA_SIZE + if IsEncrypted(info) then METADATA_SIZE else 0)
  }

  predicate LengthAgrees(size: nat, info: UpdateInfo)
    requires size < TWO_32
  {
    info.executable.length % HASH_BLOCK == 0 && info.executable.length == RoomOf(size, info)
  }

  function PayloadSize(size: nat): nat {
    if size < 320 then 0 else size - 320
  }

  /** How the parts hang together at each point, whatever the answers were. */
  predicate IsShaped(l: Loader) {
    && l.size < TWO_32
    && match l.phase {
         case AskStorage => true
         case Header => l.size >= 8
         case Metadata => l.size >= 84 && |l.head| == 8
         case Trailer => l.size >= 84 && |l.head| == 84 && LengthAgrees(l.size, Info(l))
         case Whole => l.size >= 84 && |l.head| == 84 && LengthAgrees(l.size, Info(l)) && |l.seen| < l.size
         case Secret => |l.head| == 84 && |l.seen| < 128 && |l.seen| % 16 == 0 && l.size % 64 == 0
         case Hashing => |l.head| == 84 && |l.seen| < PayloadSize(l.size) && |l.seen| % 64 == 0 && l.size % 64 == 0
         case AskAgain => |l.head| == 84 && l.size % 64 == 0
         case Blocks => |l.head| == 84 && |l.seen| < PayloadSize(l.size) && |l.seen| % 16 == 0 && l.size % 64 == 0
         case Finished(_, _) => true
       }
  }

  predicate IsReading(phase: Phase) {
    !phase.AskStorage? && !phase.AskAgain? && !phase.Finished?
  }

  /** The next read. */
  function NextRead(l: Loader): (read: SplitBoot.Operation)
    requires IsShaped(l) && IsReading(l.phase)
    ensures read.UpdateRead? && SplitBoot.IsAskable(read)
  {
    match l.phase
    case Header => SplitBoot.UpdateRead(0, 8)
    case Metadata => SplitBoot.UpdateRead(8, 76)
    case Trailer => SplitBoot.UpdateRead(l.size - 4, 4)
    case Whole => SplitBoot.UpdateRead(|l.seen|, Min(64, l.size - |l.seen|))
    case Secret => SplitBoot.UpdateRead(128 + |l.seen|, 16)
    case Hashing => SplitBoot.UpdateRead(256 + |l.seen|, 64)
    case Blocks => SplitBoot.UpdateRead(256 + |l.seen|, 16)
  }

  /** What `fd_boot_split_peripheral_update` puts in its response; an error code that would follow is left out. */
  function OutcomeBytes(outcome: Outcome): seq<byte> {
    match outcome
    case Failed => [0]
    case InvalidFirmware => [1, 0, 0]
    case InvalidUpdate => [1, 0, 1]
    case Valid => [1, 1]
  }

  function MoveOf(l: Loader): (move: SplitBoot.Move)
    requires IsShaped(l)
    ensures move.Ask? ==> SplitBoot.IsAskable(move.operation)
    ensures move.Finish? <==> l.phase.Finished?
  {
    match l.phase
    case AskStorage => SplitBoot.Ask(SplitBoot.GetUpdateStorage)
    case AskAgain => SplitBoot.Ask(SplitBoot.GetUpdateStorage)
    case Finished(outcome, _) => SplitBoot.Finish(OutcomeBytes(outcome))
    case _ => SplitBoot.Ask(NextRead(l))
  }

  function Verdict0(board: Board): Verdict<ExecutableInfo>
    requires IsLaidOut(board)
  {
    ExecutableVerdict(board.flash, board.base, board.location, board.offset)
  }

  function Done(board: Board, l: Loader, outcome: Outcome, flash: Data): Loader {
    l.(phase := Finished(outcome, flash))
  }

  /** The first part of `fd_boot_update`: the executable in flash. */
  function Start(board: Board): (l: Loader)
    requires IsLaidOut(board)
    ensures IsShaped(l)
  {
    Loader(if Verdict0(board).Error? then Finished(Failed, board.flash) else AskStorage, 0, [], [])
  }

  /** The verdict on the update is in: `fd_boot_get_action`. */
  function Judge(board: Board, l: Loader, verdict: Verdict<UpdateInfo>): (l': Loader)
    requires IsLaidOut(board) && l.size < TWO_32 && (verdict.Accepted? ==> |l.head| == 84 && l.size % 64 == 0)
    ensures IsShaped(l') && (l'.phase.Finished? || l'.phase.AskAgain?)
  {
    if verdict.Error? then Done(board, l, Failed, board.flash)
    else
      match GetAction(board.policy, ExecutableVersion(Verdict0(board)), UpdateVersion(verdict))
      case Nothing => Done(board, l, InvalidFirmware, board.flash)
      case Run => Done(board, l, Valid, board.flash)
      case Install => if verdict.Accepted? then l.(phase := AskAgain, seen := []) else Done(board, l, Failed, board.flash)
  }

  /** The hash of the executable, once its range has been read. */
  function PayloadVerdict(board: Board, info: UpdateInfo, cipher: Data): (verdict: Verdict<UpdateInfo>)
    requires |cipher| % 16 == 0 && |cipher| < TWO_32
  {
    var plain := DecryptBytes(board.key, info.vector, cipher);
    if Sha1.Digest(Masked(plain, board.offset + 24, HASH_SIZE)) != info.executable.hash then Rejected(Hash)
    else Accepted(info)
  }

  /** Flash with the first blocks of the image installed. */
  function FlashWith(board: Board, image: Data): Data {
    if image == [] || board.location < board.base
       || board.location - board.base + WholePages(|image|) > |board.flash| then board.flash
    else Installed(board.flash, board.location - board.base, image)
  }

  /** The end of `fd_boot_update`, after the installation. */
  function AfterAll(board: Board, l: Loader, cipher: Data): (l': Loader)
    requires IsLaidOut(board) && l.size < TWO_32 && |l.head| == 84 && |cipher| % 16 == 0
    ensures IsShaped(l') && l'.phase.Finished?
  {
    var flash := FlashWith(board, DecryptBytes(board.key, Info(l).vector, cipher));
    if |flash| != |board.flash| then Done(board, l, Failed, flash)
    else
      match ExecutableVerdict(flash, board.base, board.location, board.offset)
      case Error => Done(board, l, Failed, flash)
      case Rejected(_) => Done(board, l, InvalidUpdate, flash)
      case Accepted(_) => Done(board, l, Valid, flash)
  }

  /** What an update that fails leaves in flash. */
  function LeftInFlash(board: Board, l: Loader): Data
    requires IsShaped(l)
  {
    match l.phase
    case Blocks => FlashWith(board, DecryptBytes(board.key, Info(l).vector, l.seen))
    case _ => board.flash
  }

  function GotHeader(board: Board, l: Loader, data: Data): (l': Loader)
    requires IsLaidOut(board) && IsShaped(l) && l.phase.Header? && |data| == 8
    ensures IsShaped(l')
  {
    if WordIn(data, 0) != UPDATE_MAGIC then Judge(board, l, Rejected(HeaderMagic))
    else if WordIn(data, 4) != UPDATE_VERSION then Judge(board, l, Rejected(HeaderVersion))
    else if l.size < 84 then Judge(board, l, Error)
    else l.(phase := Phase.Metadata, head := data)
  }

  function GotMetadata(board: Board, l: Loader, data: Data): (l': Loader)
    requires IsLaidOut(board) && IsShaped(l) && l.phase.Metadata? && |data| == 76
    ensures IsShaped(l')
  {
    var head := l.head + data;
    if !LengthAgrees(l.size, ReadUpdateInfo(head)) then Judge(board, l, Rejected(Length))
    else l.(phase := Trailer, head := head)
  }

  function GotTrailer(board: Board, l: Loader, data: Data): (l': Loader)
    requires IsLaidOut(board) && IsShaped(l) && l.phase.Trailer? && |data| == 4
    ensures IsShaped(l')
  {
    if WordIn(data, 0) != UPDATE_TRAILER then Judge(board, l, Rejected(TrailerMagic))
    else l.(phase := Whole, seen := [])
  }

  function GotWhole(board: Board, l: Loader, seen: Data): (l': Loader)
    requires IsLaidOut(board) && IsShaped(l) && l.phase.Whole? && |seen| <= l.size
    ensures IsShaped(l')
  {
    if |seen| < l.size then l.(seen := seen)
    else if Sha1.Digest(Masked(seen, 44, HASH_SIZE)) != Info(l).hash then Judge(board, l, Rejected(Hash))
    else if !IsEncrypted(Info(l)) then Judge(board, l, Error)
    else
      EncryptedSize(l.size, Info(l));
      l.(phase := Secret, seen := [])
  }

  function GotSecret(board: Board, l: Loader, seen: Data): (l': Loader)
    requires IsLaidOut(board) && IsShaped(l) && l.phase.Secret? && |seen| <= 128 && |seen| % 16 == 0
    ensures IsShaped(l')
  {
    if |seen| < 128 then l.(seen := seen)
    else if DecryptBytes(board.key, Info(l).vector, seen)[8..84] != Expected(l.head) then
      Judge(board, l, Rejected(Issue.Metadata))
    else if PayloadSize(l.size) == 0 then Judge(board, l, PayloadVerdict(board, Info(l), []))
    else l.(phase := Hashing, seen := [])
  }

  function GotPayload(board: Board, l: Loader, seen: Data): (l': Loader)
    requires IsLaidOut(board) && IsShaped(l) && l.phase.Hashing? && |seen| % 64 == 0 && |seen| <= l.size
    ensures IsShaped(l')
  {
    if |seen| < PayloadSize(l.size) then l.(seen := seen)
    else
      HashBlocksAreCipherBlocks(|seen|);
      Judge(board, l, PayloadVerdict(board, Info(l), seen))
  }

  function GotBlock(board: Board, l: Loader, seen: Data): (l': Loader)
    requires IsLaidOut(board) && IsShaped(l) && l.phase.Blocks? && |seen| % 16 == 0
    ensures IsShaped(l')
  {
    if board.location % PAGE != 0 then Done(board, l, Failed, board.flash)
    else if |seen| < PayloadSize(l.size) then l.(seen := seen)
    else AfterAll(board, l, seen)
  }

  /** The bytes asked for have come. */
  function Got(board: Board, l: Loader, data: Data): (l': Loader)
    requires IsLaidOut(board) && IsShaped(l) && IsReading(l.phase) && |data| == NextRead(l).length
    ensures IsShaped(l')
  {
    match l.phase
    case Header => GotHeader(board, l, data)
    case Metadata => GotMetadata(board, l, data)
    case Trailer => GotTrailer(board, l, data)
    case Whole => GotWhole(board, l, l.seen + data)
    case Secret => GotSecret(board, l, l.seen + data)
    case Hashing => GotPayload(board, l, l.seen + data)
    case Blocks => GotBlock(board, l, l.seen + data)
  }

  lemma EncryptedSize(size: nat, info: UpdateInfo)
    requires size < TWO_32 && IsEncrypted(info) && LengthAgrees(size, info)
    ensures size % 64 == 0
  {
  }

  /** One answer. A call that fails ends the update; blocks that are in flash by then stay there. */
  function Step(board: Board, l: Loader, answer: SplitBoot.Answer): (l': Loader)
    requires IsLaidOut(board) && IsShaped(l)
    ensures IsShaped(l')
  {
    match l.phase
    case Finished(_, _) => l
    case AskStorage =>
      if answer.Range? && answer.location == 0 && answer.length < TWO_32 then
        var l' := l.(size := answer.length);
        if answer.length < 8 then Judge(board, l', Error) else l'.(phase := Header)
      else Done(board, l, Failed, board.flash)
    case AskAgain =>
      if answer == SplitBoot.Range(0, l.size) then
        if PayloadSize(l.size) == 0 then AfterAll(board, l, []) else l.(phase := Blocks, seen := [])
      else Done(board, l, Failed, board.flash)
    case _ =>
      if answer.Data? && |answer.bytes| == NextRead(l).length then Got(board, l, Raw(answer.bytes))
      else Done(board, l, Failed, LeftInFlash(board, l))
  }

  /** The boot loader after these answers. */
  function AfterAnswers(board: Board, history: seq<SplitBoot.Answer>): (l: Loader)
    requires IsLaidOut(board)
    ensures IsShaped(l)
    decreases |history|
  {
    if history == [] then Start(board)
    else Step(board, AfterAnswers(board, history[..|history| - 1]), history[|history| - 1])
  }

  /** It only asks for what can be asked, whatever it is answered. */
  ghost function BootClient(board: Board): (client: SplitBoot.Client)
    requires IsLaidOut(board)
    ensures SplitBoot.IsSane(client)
  {
    (history: seq<SplitBoot.Answer>) => MoveOf(AfterAnswers(board, history))
  }

  // ---------------------------------------------------------------- with the answers of local storage

  predicate HeaderAgrees(u: Data) {
    |u| >= 84 && WordIn(u, 0) == UPDATE_MAGIC && WordIn(u, 4) == UPDATE_VERSION
  }

  /** Header, length and trailer are as they should be. */
  predicate FrameAgrees(u: Data) {
    && |u| < TWO_32 && HeaderAgrees(u) && LengthAgrees(|u|, ReadUpdateInfo(u))
    && WordIn(u, |u| - 4) == UPDATE_TRAILER
  }

  /** And so is the hash of the whole. */
  predicate WholeAgrees(u: Data) {
    && FrameAgrees(u) && Sha1.Digest(Masked(u, 44, HASH_SIZE)) == ReadUpdateInfo(u).hash
    && IsEncrypted(ReadUpdateInfo(u)) && |u| % 64 == 0
  }

  /** And the metadata that was encrypted. */
  predicate SecretAgrees(u: Data, key: Key)
    requires |u| >= 256
  {
    DecryptBytes(key, ReadUpdateInfo(u).vector, u[128..256])[8..84] == Expected(u)
  }

  /** The update is to be installed. */
  predicate IsToInstall(board: Board, u: Data)
    requires IsLaidOut(board) && |u| < TWO_32
  {
    var verdict := UpdateVerdict(u, board.key, board.offset);
    && |u| >= 256 && |u| % 64 == 0 && verdict == Accepted(ReadUpdateInfo(u)) && !Verdict0(board).Error?
    && GetAction(board.policy, ExecutableVersion(Verdict0(board)), UpdateVersion(verdict)) == Install
  }

  predicate Begun(board: Board, u: Data, l: Loader)
    requires IsLaidOut(board)
  {
    !Verdict0(board).Error? && l.size == |u|
  }

  /** A range has been read up to here. */
  predicate HasSeen(u: Data, l: Loader, start: nat, end: nat) {
    |l.seen| < end - start && start + |l.seen| <= |u| && l.seen == u[start..start + |l.seen|]
  }

  /** What the boot loader knows by then is true of the update `u`; once it has finished, it has the right result. */
  predicate Reached(board: Board, u: Data, l: Loader)
    requires IsLaidOut(board) && Takes(board, u)
  {
    match l.phase
    case Finished(outcome, flash) =>
      (outcome, flash) ==
      UpdateResult(board.flash, board.base, board.location, board.offset, u, board.key, board.policy)
    case AskStorage => !Verdict0(board).Error?
    case Header => Begun(board, u, l)
    case Metadata => Begun(board, u, l) && HeaderAgrees(u) && l.head == u[..8]
    case Trailer => Begun(board, u, l) && HeaderAgrees(u) && LengthAgrees(|u|, ReadUpdateInfo(u)) && l.head == u[..84]
    case Whole => Begun(board, u, l) && FrameAgrees(u) && l.head == u[..84] && HasSeen(u, l, 0, |u|)
    case Secret => Begun(board, u, l) && WholeAgrees(u) && l.head == u[..84] && HasSeen(u, l, 128, 256)
    case Hashing =>
      && Begun(board, u, l) && WholeAgrees(u) && |u| >= 256 && SecretAgrees(u, board.key)
      && l.head == u[..84] && HasSeen(u, l, 256, |u| - 64)
    case AskAgain => Begun(board, u, l) && IsToInstall(board, u) && l.head == u[..84]
    case Blocks =>
      && Begun(board, u, l) && IsToInstall(board, u) && l.head == u[..84] && HasSeen(u, l, 256, |u| - 64)
      && (l.seen != [] ==> board.location % PAGE == 0)
  }

  /** The first bytes are enough to read the metadata. */
  lemma HeadReads(u: Data)
    requires |u| >= 84
    ensures ReadUpdateInfo(u[..84]) == ReadUpdateInfo(u) && Expected(u[..84]) == Expected(u)
  {
    hide Unpack;
    var h := u[..84];
    assert h[8..12] == u[8..12] && h[12..16] == u[12..16] && h[16..20] == u[16..20] && h[20..24] == u[20..24];
    assert h[24..44] == u[24..44] && h[44..64] == u[44..64] && h[64..68] == u[64..68] && h[68..84] == u[68..84];
    assert h[8..44] == u[8..44] && h[64..84] == u[64..84];
  }

  lemma JudgeReaches(board: Board, u: Data, l: Loader, verdict: Verdict<UpdateInfo>)
    requires IsLaidOut(board) && Takes(board, u) && !Verdict0(board).Error?
    requires l.size == |u| && verdict == UpdateVerdict(u, board.key, board.offset)
    requires verdict.Accepted? ==> |u| >= 256 && |u| % 64 == 0 && l.head == u[..84] && verdict.info == ReadUpdateInfo(u)
    ensures Reached(board, u, Judge(board, l, verdict))
  {
    hide ExecutableVerdict, UpdateVerdict, AfterInstall, ReadUpdateInfo;
  }

  /** The verdict, as far as each part of the update decides it. */
  lemma EarlyVerdict(u: Data, key: Key, offset: nat)
    requires |u| < TWO_32
    ensures var verdict := UpdateVerdict(u, key, offset);
            if |u| < 8 then verdict == Error
            else if WordIn(u, 0) != UPDATE_MAGIC then verdict == Rejected(HeaderMagic)
            else if WordIn(u, 4) != UPDATE_VERSION then verdict == Rejected(HeaderVersion)
            else if |u| < 84 then verdict == Error
            else if !LengthAgrees(|u|, ReadUpdateInfo(u)) then verdict == Rejected(Length)
            else if WordIn(u, |u| - 4) != UPDATE_TRAILER then verdict == Rejected(TrailerMagic)
            else FrameAgrees(u)
  {
    hide Unpack, ReadUpdateInfo, Sha1.Digest, Masked, ContentVerdict;
  }

  lemma LateVerdict(u: Data, key: Key, offset: nat)
    requires FrameAgrees(u)
    ensures var verdict, info := UpdateVerdict(u, key, offset), ReadUpdateInfo(u);
            if Sha1.Digest(Masked(u, 44, HASH_SIZE)) != info.hash then verdict == Rejected(Hash)
            else if !IsEncrypted(info) then verdict == Error
            else
              && WholeAgrees(u)
              && verdict == ContentVerdict(u, key, offset, info)
  {
    hide Unpack, ReadUpdateInfo, Sha1.Digest, Masked, ContentVerdict;
    FrameIsWhole(u);
    if IsEncrypted(ReadUpdateInfo(u)) {
      EncryptedSize(|u|, ReadUpdateInfo(u));
    } else {
      NotEncrypted(u, key, offset);
    }
  }

  lemma FrameIsWhole(u: Data)
    requires FrameAgrees(u)
    ensures |u| % 64 == 0 && |u| >= 84
  {
    hide Unpack, ReadUpdateInfo;
    RoomInPieces(u, ReadUpdateInfo(u));
  }

  lemma NotEncrypted(u: Data, key: Key, offset: nat)
    requires 84 <= |u| < TWO_32 && |u| % 64 == 0 && !IsEncrypted(ReadUpdateInfo(u))
    ensures ContentVerdict(u, key, offset, ReadUpdateInfo(u)) == Error
  {
    hide ReadUpdateInfo, DecryptBytes, PayloadDigest, Expected;
  }

  /** What the storage answers to a read inside it. */
  lemma LocalRead(storage: seq<byte>, location: nat, length: nat)
    requires location + length <= |storage|
    ensures var answer := SplitBoot.LocalAnswer(storage, SplitBoot.UpdateRead(location, length));
            answer.Data? && |answer.bytes| == length
            && Raw(answer.bytes) == Raw(storage)[location..location + length]
  {
    hide Raw;
    RawSlice(storage, location, location + length);
  }

  lemma HeaderReaches(board: Board, u: Data, l: Loader, data: Data)
    requires IsLaidOut(board) && Takes(board, u) && IsShaped(l) && Reached(board, u, l) && l.phase.Header?
    requires |data| == 8 && data == u[0..8]
    ensures Reached(board, u, GotHeader(board, l, data))
  {
    hide Unpack, UpdateVerdict, Judge, Verdict0, ReadUpdateInfo, LengthAgrees;
    assert data[0..4] == u[0..4] && data[4..8] == u[4..8] && data == u[..8];
    EarlyVerdict(u, board.key, board.offset);
    if WordIn(data, 0) != UPDATE_MAGIC {
      JudgeReaches(board, u, l, Rejected(HeaderMagic));
    } else if WordIn(data, 4) != UPDATE_VERSION {
      JudgeReaches(board, u, l, Rejected(HeaderVersion));
    } else if l.size < 84 {
      JudgeReaches(board, u, l, Error);
    }
  }

  lemma MetadataReaches(board: Board, u: Data, l: Loader, data: Data)
    requires IsLaidOut(board) && Takes(board, u) && IsShaped(l) && Reached(board, u, l) && l.phase.Metadata?
    requires |data| == 76 && data == u[8..84]
    ensures Reached(board, u, GotMetadata(board, l, data))
  {
    hide Unpack, UpdateVerdict, Judge, Verdict0, ReadUpdateInfo, LengthAgrees, Expected;
    assert l.head + data == u[..84];
    HeadReads(u);
    EarlyVerdict(u, board.key, board.offset);
    if !LengthAgrees(|u|, ReadUpdateInfo(u)) {
      JudgeReaches(board, u, l, Rejected(Length));
    }
  }

  lemma TrailerReaches(board: Board, u: Data, l: Loader, data: Data)
    requires IsLaidOut(board) && Takes(board, u) && IsShaped(l) && Reached(board, u, l) && l.phase.Trailer?
    requires |data| == 4 && data == u[|u| - 4..|u|]
    ensures Reached(board, u, GotTrailer(board, l, data))
  {
    hide Unpack, UpdateVerdict, Judge, Verdict0, ReadUpdateInfo, LengthAgrees;
    assert data[0..4] == data;
    EarlyVerdict(u, board.key, board.offset);
    if WordIn(data, 0) != UPDATE_TRAILER {
      JudgeReaches(board, u, l, Rejected(TrailerMagic));
    }
  }

  lemma WholeReaches(board: Board, u: Data, l: Loader, seen: Data)
    requires IsLaidOut(board) && Takes(board, u) && IsShaped(l) && Reached(board, u, l) && l.phase.Whole?
    requires |seen| <= |u| && seen == u[..|seen|]
    ensures Reached(board, u, GotWhole(board, l, seen))
  {
    hide Unpack, UpdateVerdict, Judge, Verdict0, ReadUpdateInfo, Sha1.Digest, Masked, ContentVerdict, FrameAgrees, Expected;
    if |seen| == |u| {
      assert seen == u;
      HeadReads(u);
      LateVerdict(u, board.key, board.offset);
      if Sha1.Digest(Masked(u, 44, HASH_SIZE)) != Info(l).hash {
        JudgeReaches(board, u, l, Rejected(Hash));
      } else if !IsEncrypted(Info(l)) {
        JudgeReaches(board, u, l, Error);
      } else {
        assert u[128..128] == [];
      }
    }
  }

  /** An update that ends inside the encrypted metadata is an error, and so is the read that goes beyond it. */
  lemma ShortSecret(board: Board, u: Data, l: Loader)
    requires IsLaidOut(board) && Takes(board, u) && WholeAgrees(u) && |u| < 256 && !Verdict0(board).Error?
    ensures Reached(board, u, Done(board, l, Failed, board.flash))
  {
    hide Unpack, Verdict0, ReadUpdateInfo, Sha1.Digest, Masked, ContentVerdict, FrameAgrees, UpdateVerdict, ExecutableVerdict;
    hide AfterInstall;
    FrameIsWhole(u);
    LateVerdict(u, board.key, board.offset);
    ShortContent(u, board.key, board.offset);
  }

  lemma ShortContent(u: Data, key: Key, offset: nat)
    requires 84 <= |u| < 256 && |u| % 64 == 0
    ensures ContentVerdict(u, key, offset, ReadUpdateInfo(u)) == Error
  {
    hide ReadUpdateInfo, DecryptBytes, PayloadDigest, Expected;
  }

  /** The verdict on an update with the right frame and hash, from what has been read of it. */
  lemma ContentIs(board: Board, u: Data, info: UpdateInfo)
    requires 256 <= |u| < TWO_32 && |u| % 64 == 0 && info == ReadUpdateInfo(u) && IsEncrypted(info)
    ensures |Payload(u)| == PayloadSize(|u|) && |Payload(u)| % 16 == 0
    ensures ContentVerdict(u, board.key, board.offset, info) ==
            if !SecretAgrees(u, board.key) then Rejected(Issue.Metadata)
            else PayloadVerdict(board, info, Payload(u))
  {
    hide ReadUpdateInfo, DecryptBytes, Sha1.Digest, Masked, Expected;
    HashBlocksAreCipherBlocks(|Payload(u)|);
  }

  lemma PayloadReaches(board: Board, u: Data, l: Loader)
    requires IsLaidOut(board) && Takes(board, u) && IsShaped(l) && Begun(board, u, l) && |l.head| == 84
    requires WholeAgrees(u) && |u| >= 256 && SecretAgrees(u, board.key) && l.head == u[..84]
    ensures |Payload(u)| == PayloadSize(|u|) && |Payload(u)| % 16 == 0
    ensures Reached(board, u, Judge(board, l, PayloadVerdict(board, Info(l), Payload(u))))
  {
    hide Unpack, UpdateVerdict, Judge, Verdict0, ReadUpdateInfo, Sha1.Digest, Masked, ContentVerdict, FrameAgrees, Expected;
    hide SecretAgrees, DecryptBytes, Payload;
    HeadReads(u);
    LateVerdict(u, board.key, board.offset);
    ContentIs(board, u, Info(l));
    JudgeReaches(board, u, l, PayloadVerdict(board, Info(l), Payload(u)));
  }

  lemma SecretReaches(board: Board, u: Data, l: Loader, seen: Data)
    requires IsLaidOut(board) && Takes(board, u) && IsShaped(l) && Reached(board, u, l) && l.phase.Secret?
    requires |seen| <= 128 && |seen| % 16 == 0 && 128 + |seen| <= |u| && seen == u[128..128 + |seen|]
    ensures Reached(board, u, GotSecret(board, l, seen))
  {
    hide Unpack, UpdateVerdict, Judge, Verdict0, ReadUpdateInfo, Sha1.Digest, Masked, ContentVerdict, FrameAgrees, Expected;
    hide DecryptBytes, PayloadVerdict;
    if |seen| == 128 {
      HeadReads(u);
      LateVerdict(u, board.key, board.offset);
      ContentIs(board, u, Info(l));
      if !SecretAgrees(u, board.key) {
        JudgeReaches(board, u, l, Rejected(Issue.Metadata));
      } else {
        PayloadReaches(board, u, l);
        assert u[256..256] == [];
        assert PayloadSize(|u|) == 0 ==> Payload(u) == [];
      }
    }
  }

  lemma HashingReaches(board: Board, u: Data, l: Loader, seen: Data)
    requires IsLaidOut(board) && Takes(board, u) && IsShaped(l) && Reached(board, u, l) && l.phase.Hashing?
    requires |seen| <= PayloadSize(|u|) && |seen| % 64 == 0 && 256 + |seen| <= |u| && seen == u[256..256 + |seen|]
    ensures Reached(board, u, GotPayload(board, l, seen))
  {
    hide Unpack, UpdateVerdict, Judge, Verdict0, ReadUpdateInfo, Sha1.Digest, Masked, ContentVerdict, FrameAgrees, Expected;
    hide DecryptBytes, PayloadVerdict, SecretAgrees;
    if |seen| == PayloadSize(|u|) {
      PayloadReaches(board, u, l);
      assert seen == Payload(u);
    }
  }

  /** The image is in flash. */
  lemma AllReaches(board: Board, u: Data, l: Loader)
    requires IsLaidOut(board) && Takes(board, u) && Begun(board, u, l) && IsToInstall(board, u) && l.head == u[..84]
    requires PayloadSize(|u|) > 0 ==> board.location % PAGE == 0
    ensures |Payload(u)| == PayloadSize(|u|) && |Payload(u)| % 16 == 0
    ensures Reached(board, u, AfterAll(board, l, Payload(u)))
  {
    hide ExecutableVerdict, UpdateVerdict, ReadUpdateInfo, DecryptBytes, Installed, Payload;
    HeadReads(u);
    AcceptedUpdate(u, board.key, board.offset);
    if PayloadSize(|u|) > 0 {
      ImageFits(board.flash, board.base, board.location, |Payload(u)|);
    }
  }

  /** Flash that is not laid out in pages there is not erased. */
  lemma MisplacedReaches(board: Board, u: Data, l: Loader)
    requires IsLaidOut(board) && Takes(board, u) && Begun(board, u, l) && IsToInstall(board, u)
    requires PayloadSize(|u|) > 0 && board.location % PAGE != 0
    ensures Reached(board, u, Done(board, l, Failed, board.flash))
  {
    hide ExecutableVerdict, UpdateVerdict, ReadUpdateInfo, DecryptBytes, Installed, Payload;
    AcceptedUpdate(u, board.key, board.offset);
  }

  lemma BlockReaches(board: Board, u: Data, l: Loader, seen: Data)
    requires IsLaidOut(board) && Takes(board, u) && IsShaped(l) && Reached(board, u, l) && l.phase.Blocks?
    requires 0 < |seen| <= PayloadSize(|u|) && |seen| % 16 == 0 && 256 + |seen| <= |u| && seen == u[256..256 + |seen|]
    ensures Reached(board, u, GotBlock(board, l, seen))
  {
    hide UpdateVerdict, Verdict0, ReadUpdateInfo, AfterAll, IsToInstall;
    if board.location % PAGE != 0 {
      MisplacedReaches(board, u, l);
    } else if |seen| == PayloadSize(|u|) {
      AllReaches(board, u, l);
      assert seen == Payload(u);
    }
  }

  // ---------------------------------------------------------------- every step and every history

  /** A piece of a range joins what has been read of it. */
  lemma PieceJoins(u: Data, l: Loader, start: nat, end: nat, n: nat)
    requires HasSeen(u, l, start, end) && start + |l.seen| + n <= |u|
    ensures l.seen + u[start + |l.seen|..start + |l.seen| + n] == u[start..start + |l.seen| + n]
  {
  }

  lemma PieceFits(size: nat, n: nat)
    requires size % 64 == 0 && n < PayloadSize(size) && n % 64 == 0
    ensures n + 64 <= PayloadSize(size) && 256 + n + 64 <= size && (n + 64) % 64 == 0
  {
  }

  lemma BlockFits(size: nat, n: nat)
    requires size % 64 == 0 && n < PayloadSize(size) && n % 16 == 0
    ensures n + 16 <= PayloadSize(size) && 256 + n + 16 <= size && (n + 16) % 16 == 0
  {
  }

  /** These are the bytes of the update that the boot loader asks for. */
  predicate IsNext(u: Data, l: Loader, data: Data)
    requires IsShaped(l) && IsReading(l.phase)
  {
    var read := NextRead(l);
    && |data| == read.length && read.location + |data| <= |u|
    && data == u[read.location..read.location + |data|]
  }

  lemma NextHeader(board: Board, u: Data, l: Loader, data: Data)
    requires IsLaidOut(board) && Takes(board, u) && IsShaped(l) && Reached(board, u, l) && l.phase.Header?
    requires IsNext(u, l, data)
    ensures Reached(board, u, Got(board, l, data))
  {
    hide GotHeader, ReadUpdateInfo, UpdateResult;
    HeaderReaches(board, u, l, data);
  }

  lemma NextMetadata(board: Board, u: Data, l: Loader, data: Data)
    requires IsLaidOut(board) && Takes(board, u) && IsShaped(l) && Reached(board, u, l) && l.phase.Metadata?
    requires IsNext(u, l, data)
    ensures Reached(board, u, Got(board, l, data))
  {
    hide GotMetadata, HeaderAgrees, ReadUpdateInfo, UpdateResult;
    MetadataReaches(board, u, l, data);
  }

  lemma NextTrailer(board: Board, u: Data, l: Loader, data: Data)
    requires IsLaidOut(board) && Takes(board, u) && IsShaped(l) && Reached(board, u, l) && l.phase.Trailer?
    requires IsNext(u, l, data)
    ensures Reached(board, u, Got(board, l, data))
  {
    hide GotTrailer, HeaderAgrees, ReadUpdateInfo, LengthAgrees, UpdateResult;
    TrailerReaches(board, u, l, data);
  }

  lemma NextOfWhole(board: Board, u: Data, l: Loader, data: Data)
    requires IsLaidOut(board) && Takes(board, u) && IsShaped(l) && Reached(board, u, l) && l.phase.Whole?
    requires IsNext(u, l, data)
    ensures Reached(board, u, Got(board, l, data))
  {
    hide GotWhole, FrameAgrees, ReadUpdateInfo, LengthAgrees, UpdateResult;
    PieceJoins(u, l, 0, |u|, |data|);
    WholeReaches(board, u, l, l.seen + data);
  }

  lemma NextOfSecret(board: Board, u: Data, l: Loader, data: Data)
    requires IsLaidOut(board) && Takes(board, u) && IsShaped(l) && Reached(board, u, l) && l.phase.Secret?
    requires IsNext(u, l, data)
    ensures Reached(board, u, Got(board, l, data))
  {
    hide GotSecret, WholeAgrees, ReadUpdateInfo, UpdateResult;
    PieceJoins(u, l, 128, 256, 16);
    SecretReaches(board, u, l, l.seen + data);
  }

  lemma NextOfPayload(board: Board, u: Data, l: Loader, data: Data)
    requires IsLaidOut(board) && Takes(board, u) && IsShaped(l) && Reached(board, u, l) && l.phase.Hashing?
    requires IsNext(u, l, data)
    ensures Reached(board, u, Got(board, l, data))
  {
    hide GotPayload, WholeAgrees, SecretAgrees, ReadUpdateInfo, UpdateResult, PayloadSize;
    PieceJoins(u, l, 256, |u| - 64, 64);
    PieceFits(|u|, |l.seen|);
    HashingReaches(board, u, l, l.seen + data);
  }

  lemma NextBlock(board: Board, u: Data, l: Loader, data: Data)
    requires IsLaidOut(board) && Takes(board, u) && IsShaped(l) && Reached(board, u, l) && l.phase.Blocks?
    requires IsNext(u, l, data)
    ensures Reached(board, u, Got(board, l, data))
  {
    hide GotBlock, IsToInstall, ReadUpdateInfo, UpdateResult, PayloadSize, Verdict0;
    PieceJoins(u, l, 256, |u| - 64, 16);
    BlockFits(|u|, |l.seen|);
    BlockReaches(board, u, l, l.seen + data);
  }

  lemma NextReaches(board: Board, u: Data, l: Loader, data: Data)
    requires IsLaidOut(board) && Takes(board, u) && IsShaped(l) && Reached(board, u, l) && IsReading(l.phase)
    requires IsNext(u, l, data)
    ensures Reached(board, u, Got(board, l, data))
  {
    hide Got, Reached, IsShaped, IsNext, NextRead, Takes;
    match l.phase
    case Header => NextHeader(board, u, l, data);
    case Metadata => NextMetadata(board, u, l, data);
    case Trailer => NextTrailer(board, u, l, data);
    case Whole => NextOfWhole(board, u, l, data);
    case Secret => NextOfSecret(board, u, l, data);
    case Hashing => NextOfPayload(board, u, l, data);
    case Blocks => NextBlock(board, u, l, data);
  }

  /** A read that the storage refuses: only the encrypted metadata can be missing. */
  lemma RefusedReaches(board: Board, u: Data, l: Loader)
    requires IsLaidOut(board) && Takes(board, u) && IsShaped(l) && Reached(board, u, l) && IsReading(l.phase)
    requires NextRead(l).location + NextRead(l).length > |u|
    ensures Reached(board, u, Done(board, l, Failed, LeftInFlash(board, l)))
  {
    hide FrameAgrees, SecretAgrees, IsToInstall, ReadUpdateInfo, LengthAgrees, UpdateResult, WholeAgrees;
    if l.phase.Secret? {
      SecretIsShort(u, |l.seen|);
      ShortSecret(board, u, l);
    } else {
      assert false;
    }
  }

  lemma SecretIsShort(u: Data, n: nat)
    requires WholeAgrees(u) && n < 128 && n % 16 == 0 && 128 + n + 16 > |u|
    ensures |u| < 256
  {
    hide FrameAgrees, ReadUpdateInfo;
  }

  /** Whatever the boot loader asks for, with the answer of local storage it stays on the way to the right result. */
  lemma AnswerReaches(board: Board, storage: seq<byte>, l: Loader)
    requires IsLaidOut(board) && Takes(board, Raw(storage)) && IsShaped(l) && Reached(board, Raw(storage), l)
    requires MoveOf(l).Ask?
    ensures Reached(board, Raw(storage), Step(board, l, SplitBoot.LocalAnswer(storage, MoveOf(l).operation)))
  {
    hide Raw, Got, Judge, AfterAll, LeftInFlash, UpdateResult, Verdict0, Step, NextRead, Reached, IsShaped;
    if l.phase.AskStorage? {
      StorageReaches(board, Raw(storage), l);
    } else if l.phase.AskAgain? {
      AgainReaches(board, Raw(storage), l);
    } else {
      ReadAnswerReaches(board, storage, l);
    }
  }

  lemma ReadAnswerReaches(board: Board, storage: seq<byte>, l: Loader)
    requires IsLaidOut(board) && Takes(board, Raw(storage)) && IsShaped(l) && Reached(board, Raw(storage), l)
    requires IsReading(l.phase)
    ensures Reached(board, Raw(storage), Step(board, l, SplitBoot.LocalAnswer(storage, NextRead(l))))
  {
    hide Raw, Got, Judge, AfterAll, LeftInFlash, UpdateResult, Verdict0, NextRead, Reached, IsShaped, Takes;
    var u, read := Raw(storage), NextRead(l);
    if read.location + read.length <= |u| {
      LocalRead(storage, read.location, read.length);
      var data := u[read.location..read.location + read.length];
      NextReaches(board, u, l, data);
    } else {
      RefusedReaches(board, u, l);
    }
  }

  lemma StorageReaches(board: Board, u: Data, l: Loader)
    requires IsLaidOut(board) && Takes(board, u) && IsShaped(l) && Reached(board, u, l) && l.phase.AskStorage?
    ensures Reached(board, u, Step(board, l, SplitBoot.Range(0, |u|)))
  {
    hide Judge, UpdateResult, UpdateVerdict, ReadUpdateInfo, Verdict0;
    EarlyVerdict(u, board.key, board.offset);
    if |u| < 8 {
      JudgeReaches(board, u, l.(size := |u|), Error);
    }
  }

  lemma AgainReaches(board: Board, u: Data, l: Loader)
    requires IsLaidOut(board) && Takes(board, u) && IsShaped(l) && Reached(board, u, l) && l.phase.AskAgain?
    ensures Reached(board, u, Step(board, l, SplitBoot.Range(0, |u|)))
  {
    hide AfterAll, UpdateResult, UpdateVerdict, ReadUpdateInfo, Verdict0;
    if PayloadSize(|u|) == 0 {
      AllReaches(board, u, l);
      assert Payload(u) == [];
    } else {
      assert u[256..256] == [];
    }
  }

  lemma {:induction false} HistoryReaches(board: Board, storage: seq<byte>, history: seq<SplitBoot.Answer>)
    requires IsLaidOut(board) && Takes(board, Raw(storage))
    requires SplitBoot.IsLocal(BootClient(board), storage, history)
    ensures Reached(board, Raw(storage), AfterAnswers(board, history))
    decreases |history|
  {
    hide Raw, MoveOf, Step, UpdateResult, Takes, UpdateVerdict;
    if history == [] {
      StartReaches(board, Raw(storage));
    } else {
      var n := |history| - 1;
      var before := history[..n];
      assert forall k :: 0 <= k < n ==> before[..k] == history[..k];
      HistoryReaches(board, storage, before);
      AnswerReaches(board, storage, AfterAnswers(board, before));
    }
  }

  lemma StartReaches(board: Board, u: Data)
    requires IsLaidOut(board) && Takes(board, u)
    ensures Reached(board, u, Start(board))
  {
    hide ExecutableVerdict, UpdateVerdict, AfterInstall;
  }

  /** Every answer brings the end nearer. */
  function Rank(l: Loader): (n: nat)
    requires IsShaped(l)
    ensures n <= 9 * TWO_32 && (n == 0 <==> l.phase.Finished?)
  {
    match l.phase
    case AskStorage => 9 * TWO_32
    case Header => 8 * TWO_32
    case Metadata => 7 * TWO_32
    case Trailer => 6 * TWO_32
    case Whole => 5 * TWO_32 - |l.seen|
    case Secret => 4 * TWO_32 - |l.seen|
    case Hashing => 3 * TWO_32 - |l.seen|
    case AskAgain => 2 * TWO_32
    case Blocks => TWO_32 - |l.seen|
    case Finished(_, _) => 0
  }

  lemma GotIsNearer(board: Board, l: Loader, data: Data)
    requires IsLaidOut(board) && IsShaped(l) && IsReading(l.phase) && |data| == NextRead(l).length
    ensures Rank(Got(board, l, data)) < Rank(l)
  {
    hide Judge, AfterAll, ReadUpdateInfo, Unpack, Sha1.Digest, Masked, DecryptBytes, Expected, LengthAgrees, PayloadVerdict;
  }

  lemma StepIsNearer(board: Board, l: Loader, answer: SplitBoot.Answer)
    requires IsLaidOut(board) && IsShaped(l) && !l.phase.Finished?
    ensures Rank(Step(board, l, answer)) < Rank(l)
  {
    hide Judge, Got, LeftInFlash, AfterAll, NextRead, Raw;
    if IsReading(l.phase) {
      ReadIsNearer(board, l, answer);
    }
  }

  lemma ReadIsNearer(board: Board, l: Loader, answer: SplitBoot.Answer)
    requires IsLaidOut(board) && IsShaped(l) && IsReading(l.phase)
    ensures Rank(Step(board, l, answer)) < Rank(l)
  {
    hide Judge, Got, LeftInFlash, AfterAll, NextRead, Raw, IsShaped;
    if answer.Data? && |answer.bytes| == NextRead(l).length {
      GotIsNearer(board, l, Raw(answer.bytes));
    }
  }

  /** An update comes to its end, whatever it is answered: after so many answers it asks for nothing more. */
  lemma {:induction false} AnswersAreBounded(board: Board, history: seq<SplitBoot.Answer>)
    requires IsLaidOut(board) && forall k :: 0 <= k < |history| ==> BootClient(board)(history[..k]).Ask?
    ensures |history| + Rank(AfterAnswers(board, history)) <= 9 * TWO_32
    decreases |history|
  {
    hide MoveOf, Step, Rank;
    if history == [] {
    } else {
      var n := |history| - 1;
      var before := history[..n];
      assert forall k :: 0 <= k < n ==> before[..k] == history[..k];
      AnswersAreBounded(board, before);
      assert BootClient(board)(history[..n]).Ask?;
      StepIsNearer(board, AfterAnswers(board, before), history[n]);
    }
  }

  /** What `fd_boot_split_controller_update` makes of the response: false, or valid, or an issue. */
  function OutcomeOf(response: seq<byte>): Option<Outcome> {
    var (code, index) := SplitBoot.Take(response, 0, 2);
    if code != SplitBoot.UPDATE then None
    else
      var (success, a) := SplitBoot.Take(response, index, 1);
      if success == 0 then Some(Failed)
      else
        var (valid, b) := SplitBoot.Take(response, a, 1);
        if valid != 0 then Some(Valid)
        else if SplitBoot.Take(response, b, 1).0 == 0 then Some(InvalidFirmware) else Some(InvalidUpdate)
  }

  /** The controller reads the outcome that the peripheral had. */
  lemma OutcomeIsRead(outcome: Outcome)
    ensures OutcomeOf(LE16(SplitBoot.UPDATE) + OutcomeBytes(outcome)) == Some(outcome)
  {
    assert LE16(SplitBoot.UPDATE) == [3, 0];
  }

  // ---------------------------------------------------------------- an update that the controller starts

  /**
   In every run, once the controller has its response the flash of the peripheral and the outcome are those of an update
   from the same storage at hand, whatever it holds.
  */
  lemma ControllerUpdates(board: Board, storage: seq<byte>, states: seq<SplitBoot.State>, steps: seq<SplitBoot.Step>, k: nat)
    requires IsLaidOut(board) && Takes(board, Raw(storage)) && |storage| < TWO_32
    requires SplitBoot.IsRun(BootClient(board), storage, states, steps)
    requires k < |states| && states[k].controller.Done?
    ensures AfterAnswers(board, states[k].history).phase.Finished?
    ensures var (outcome, flash) := UpdateResult(board.flash, board.base, board.location, board.offset, Raw(storage),
                                                 board.key, board.policy);
            && AfterAnswers(board, states[k].history).phase == Finished(outcome, flash)
            && OutcomeOf(states[k].controller.outcome) == Some(outcome)
  {
    hide Raw, UpdateResult, IsBoard, AfterAnswers, LE16, OutcomeBytes, OutcomeOf;
    OutcomeIsRead(UpdateResult(board.flash, board.base, board.location, board.offset, Raw(storage), board.key,
                               board.policy).0);
    SplitBoot.UpdateOverTheLink(BootClient(board), storage, states, steps, k);
    HistoryReaches(board, storage, states[k].history);
  }

  /**
   A packaged update at the controller, for a peripheral with the default policy that holds no acceptable executable or
   an older one: the controller is told so, and the executable region of the peripheral is the packaged executable.
  */
  lemma ControllerInstalls(board: Board, storage: seq<byte>, vector: Block, e: Data, states: seq<SplitBoot.State>,
                           steps: seq<SplitBoot.Step>, k: nat)
    requires IsLaidOut(board) && |storage| < TWO_32 && board.policy == DEFAULT_POLICY
    requires IsDelivery(board.flash, board.base, board.location, board.offset, Raw(storage), board.key, vector, e)
    requires board.offset + 44 <= |e| < TWO_32 && HashFieldSeen(e, board.offset) && !Verdict0(board).Error?
    requires Verdict0(board).Accepted? ==>
               VersionNumber(Verdict0(board).info.version) < VersionNumber(VersionOf(e, board.offset))
    requires SplitBoot.IsRun(BootClient(board), storage, states, steps)
    requires k < |states| && states[k].controller.Done?
    ensures OutcomeOf(states[k].controller.outcome) == Some(Valid)
    ensures var o := board.location - board.base;
            var phase := AfterAnswers(board, states[k].history).phase;
            && phase.Finished? && o + |e| <= |phase.flash| && phase.flash[o..o + |e|] == e
  {
    hide Raw, UpdateResult, AfterAnswers, OutcomeOf, IsExecutable, IsUpdateOf, HashFieldSeen, ExecutableVerdict;
    hide Installed;
    ControllerUpdates(board, storage, states, steps, k);
    PackagedUpdate(board.flash, board.base, board.location, board.offset, Raw(storage), board.key, vector, e);
    InstalledDelivery(board.flash, board.base, board.location, board.offset, Raw(storage), board.key, vector, e);
  }
}
