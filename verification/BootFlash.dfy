/**
 The flash of fd_boot_nrf53.c: pages that are erased to ones, words whose bits a write can only clear, and a ghost log of
 what was erased and written.
*/
module BootFlash {
  import opened Bytes

  const PAGE := 0x1000
  const WORDS_IN_PAGE := 0x400

  datatype Event = Erased(page: nat) | Wrote(word: nat)

  /** A write can only clear bits. */
  function Clear(cell: bv8, data: bv8): bv8 {
    cell & data
  }

  lemma ErasedTakesAnything(data: bv8)
    ensures Clear(0xff, data) == data
  {
  }

  function Cleared(cells: seq<bv8>, data: seq<bv8>): (t: seq<bv8>)
    requires |cells| == |data|
    ensures |t| == |cells| && forall i :: 0 <= i < |t| ==> t[i] == Clear(cells[i], data[i])
  {
    seq(|cells|, i requires 0 <= i < |cells| => Clear(cells[i], data[i]))
  }

  function Ones(n: nat): (s: seq<bv8>)
    ensures |s| == n && forall i :: 0 <= i < n ==> s[i] == 0xff
  {
    seq(n, _ => 0xff)
  }

  lemma ClearedOnes(data: seq<bv8>)
    ensures Cleared(Ones(|data|), data) == data
  {
    hide Clear;
    forall i | 0 <= i < |data| ensures Cleared(Ones(|data|), data)[i] == data[i] {
      ErasedTakesAnything(data[i]);
    }
  }

  /** Memory after data have been written at `o`. */
  function Programmed(s: seq<bv8>, o: nat, data: seq<bv8>): (t: seq<bv8>)
    requires o + |data| <= |s|
    ensures |t| == |s|
  {
    s[..o] + Cleared(s[o..o + |data|], data) + s[o + |data|..]
  }

  /** The log of writing `n` words from an address on. */
  function Words(location: nat, n: nat): (log: seq<Event>)
    ensures |log| == n
  {
    seq(n, k requires 0 <= k < n => Wrote(location + 4 * k))
  }

  /** Flash memory from address `base` on. */
  class Flash {
    const base: nat
    const memory: array<bv8>
    ghost var log: seq<Event>

    ghost predicate Valid() {
      base % PAGE == 0 && memory.Length % PAGE == 0 && base + memory.Length < TWO_32
    }

    constructor (base: nat, size: nat)
      requires base % PAGE == 0 && size % PAGE == 0 && base + size < TWO_32
      ensures Valid() && fresh(memory) && this.base == base && memory[..] == Ones(size) && log == []
    {
      this.base := base;
      memory := new bv8[size](_ => 0xff);
      log := [];
    }

    predicate Holds(location: nat, length: nat) {
      base <= location && location + length <= base + memory.Length
    }

    /** `fd_boot_nrf53_flasher_erase`: one page, whatever the length; the next page is where to erase next. */
    method Erase(location: nat, length: nat) returns (ok: bool, nextLocation: nat)
      requires Valid() && (location % PAGE == 0 ==> Holds(location, PAGE))
      modifies this`log, memory
      ensures ok <==> location % PAGE == 0
      ensures !ok ==> memory[..] == old(memory[..]) && log == old(log)
      ensures ok ==> nextLocation == location + PAGE && log == old(log) + [Erased(location)]
      ensures ok ==> memory[..] == old(memory[..location - base]) + Ones(PAGE) + old(memory[location - base + PAGE..])
    {
      nextLocation := 0;
      ok := location % PAGE == 0;
      if ok {
        forall i | location - base <= i < location - base + PAGE {
          memory[i] := 0xff;
        }
        log := log + [Erased(location)];
        nextLocation := location + PAGE;
      }
    }

    /** `fd_boot_nrf53_flasher_write`: word by word. */
    method Write(location: nat, data: array<bv8>, length: nat) returns (ok: bool)
      requires Valid() && Holds(location, length) && length <= data.Length && data != memory
      modifies this`log, memory
      ensures ok <==> location % 4 == 0 && length % 4 == 0
      ensures !ok ==> memory[..] == old(memory[..]) && log == old(log)
      ensures ok ==> log == old(log) + Words(location, length / 4)
      ensures ok ==> memory[..] == Programmed(old(memory[..]), location - base, data[..length])
    {
      hide Clear, Cleared;
      ok := location % 4 == 0 && length % 4 == 0;
      if !ok {
        return;
      }
      ghost var was, events := memory[..], log;
      var o := location - base;
      var n := 0;
      while n < length
        invariant 0 <= n <= length && n % 4 == 0
        invariant log == events + Words(location, n / 4)
        invariant forall i :: 0 <= i < memory.Length ==>
                    memory[i] == if o <= i < o + n then Clear(was[i], data[i - o]) else was[i]
      {
        WriteWord(o + n, data, n);
        assert Words(location, n / 4 + 1) == Words(location, n / 4) + [Wrote(location + n)];
        n := n + 4;
      }
      ProgrammedIs(was, memory[..], o, data[..length]);
    }

    /** `*write_address++ = *write_data++`. */
    method WriteWord(o: nat, data: array<bv8>, n: nat)
      requires o + 4 <= memory.Length && n + 4 <= data.Length && data != memory
      modifies this`log, memory
      ensures log == old(log) + [Wrote(base + o)]
      ensures forall i :: 0 <= i < memory.Length ==>
                memory[i] == if o <= i < o + 4 then Clear(old(memory[i]), data[i - o + n]) else old(memory[i])
    {
      hide Clear;
      memory[o], memory[o + 1], memory[o + 2], memory[o + 3] :=
        Clear(memory[o], data[n]), Clear(memory[o + 1], data[n + 1]),
        Clear(memory[o + 2], data[n + 2]), Clear(memory[o + 3], data[n + 3]);
      log := log + [Wrote(base + o)];
    }
  }

  lemma ProgrammedIs(was: seq<bv8>, now: seq<bv8>, o: nat, data: seq<bv8>)
    requires |was| == |now| && o + |data| <= |was|
    requires forall i :: 0 <= i < |was| ==> now[i] == if o <= i < o + |data| then Clear(was[i], data[i - o]) else was[i]
    ensures now == Programmed(was, o, data)
  {
    hide Clear;
  }

  // ---------------------------------------------------------------- the log of an installation

  /** What an installation of `words` words does: each page is erased just before its first word is written. */
  function InstallLog(location: nat, words: nat): (log: seq<Event>) {
    if words == 0 then []
    else
      InstallLog(location, words - 1)
      + (if (words - 1) % WORDS_IN_PAGE == 0 then [Erased(location + 4 * (words - 1))] else [])
      + [Wrote(location + 4 * (words - 1))]
  }

  function PageOf(location: nat, word: nat): (page: nat)
    requires location <= word
  {
    location + (word - location) / PAGE * PAGE
  }

  /** Exactly the pages that cover the image are erased. */
  lemma {:induction false} ErasedPages(location: nat, words: nat, page: nat)
    ensures Erased(page) in InstallLog(location, words) <==>
            location <= page < location + 4 * words && (page - location) % PAGE == 0
  {
    if words == 0 {
    } else {
      ErasedPages(location, words - 1, page);
      NextPage(location, words - 1, page);
    }
  }

  lemma NextPage(location: nat, words: nat, page: nat)
    ensures words % WORDS_IN_PAGE == 0 && page == location + 4 * words <==>
            location + 4 * words <= page < location + 4 * (words + 1) && (page - location) % PAGE == 0
  {
  }

  /** Exactly the words of the image are written. */
  lemma {:induction false} WrittenWords(location: nat, words: nat, word: nat)
    ensures Wrote(word) in InstallLog(location, words) <==>
            location <= word < location + 4 * words && (word - location) % 4 == 0
  {
    if words == 0 {
    } else {
      WrittenWords(location, words - 1, word);
    }
  }

  /** The page of the write at `j` was erased before it and is not erased after it. */
  predicate WriteIsSafe(location: nat, log: seq<Event>, j: nat)
    requires j < |log| && log[j].Wrote? && location <= log[j].word
  {
    && Erased(PageOf(location, log[j].word)) in log[..j]
    && Erased(PageOf(location, log[j].word)) !in log[j..]
  }

  /** Every write of an installation goes to a page that was erased before it and is never erased after it. */
  lemma {:induction false} WritesAreSafe(location: nat, words: nat, j: nat)
    requires j < |InstallLog(location, words)| && InstallLog(location, words)[j].Wrote?
    ensures InstallLog(location, words)[j].word >= location
    ensures WriteIsSafe(location, InstallLog(location, words), j)
  {
    var log, shorter := InstallLog(location, words), InstallLog(location, words - 1);
    if j < |shorter| {
      WritesAreSafe(location, words - 1, j);
      assert log[..j] == shorter[..j];
      assert log[j..] == shorter[j..] + log[|shorter|..];
      assert shorter[j] in shorter;
      WrittenWords(location, words - 1, shorter[j].word);
      assert PageOf(location, shorter[j].word) < location + 4 * (words - 1);
    } else {
      var word := location + 4 * (words - 1);
      assert log[j] == Wrote(word) && log[j..] == [Wrote(word)];
      var page := PageOf(location, word);
      ErasedPages(location, words, page);
      assert log == log[..j] + log[j..];
    }
  }

  /** No page is erased twice. */
  lemma {:induction false} ErasedOnce(location: nat, words: nat, i: nat, j: nat)
    requires i < j < |InstallLog(location, words)|
    requires InstallLog(location, words)[i].Erased? && InstallLog(location, words)[j].Erased?
    ensures InstallLog(location, words)[i].page < InstallLog(location, words)[j].page
  {
    var shorter := InstallLog(location, words - 1);
    if j < |shorter| {
      ErasedOnce(location, words - 1, i, j);
    } else {
      assert shorter[i] in shorter;
      ErasedPages(location, words - 1, shorter[i].page);
    }
  }

  /** One more block of four words, with the erasure that precedes it when it starts a page. */
  lemma InstallLogGrows(location: nat, words: nat)
    requires words % 4 == 0
    ensures InstallLog(location, words + 4) ==
            InstallLog(location, words)
            + (if words % WORDS_IN_PAGE == 0 then [Erased(location + 4 * words)] else [])
            + Words(location + 4 * words, 4)
  {
    InWords(location, words, 1);
    InWords(location, words, 2);
    InWords(location, words, 3);
    InWords(location, words, 4);
  }

  lemma InWords(location: nat, words: nat, k: nat)
    requires words % 4 == 0 && 0 < k <= 4
    requires k > 1 ==>
      InstallLog(location, words + k - 1) ==
      InstallLog(location, words)
      + (if words % WORDS_IN_PAGE == 0 then [Erased(location + 4 * words)] else [])
      + Words(location + 4 * words, k - 1)
    ensures InstallLog(location, words + k) ==
            InstallLog(location, words)
            + (if words % WORDS_IN_PAGE == 0 then [Erased(location + 4 * words)] else [])
            + Words(location + 4 * words, k)
  {
    assert Words(location + 4 * words, k) == Words(location + 4 * words, k - 1) + [Wrote(location + 4 * (words + k - 1))];
    assert k > 1 ==> (words + k - 1) % WORDS_IN_PAGE != 0;
  }

  /** Bit by bit: a cell has a bit afterwards exactly if it had it and it is written. */
  lemma ClearByBits(cell: bv8, data: bv8, bit: bv8)
    requires bit in {0x01, 0x02, 0x04, 0x08, 0x10, 0x20, 0x40, 0x80}
    ensures Clear(cell, data) & bit != 0 <==> cell & bit != 0 && data & bit != 0
  {
  }
}
