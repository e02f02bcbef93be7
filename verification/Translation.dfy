/**
 Rewriting of Linux instructions that must not run natively (memory/kernel_mapping.c), and the
 decoders the trap handler applies to the rewritten words (runtime/trap.c).

 The sources mask and compare 32-bit words; a mask that clears the five register bits of a word
 `w` is written `w - w % 32`. Pages are bytes, so the rewriting of a page is stated on the four
 bytes of an instruction, and `RewriteIsTranslateWord` ties the two views together.
 */
module Translation {
  import opened HostTypes
  import opened Slices

  type Word = w: int | 0 <= w < 0x1_0000_0000

  const SVC0: Word := 0xd4000001
  const SYSCALL_BRK: Word := 0xd4209e80
  const MSR_TPIDR_EL0: Word := 0xd51bd040
  const TLS_WRITE_BRK_BASE: Word := 0xd4209ec0

  predicate IsTlsWrite(w: Word) {
    w - w % 32 == MSR_TPIDR_EL0
  }

  predicate Translatable(w: Word) {
    w == SVC0 || IsTlsWrite(w)
  }

  function TranslateWord(w: Word): Word {
    if w == SVC0 then SYSCALL_BRK
    else if IsTlsWrite(w) then TLS_WRITE_BRK_BASE + w % 32
    else w
  }

  /** What a trap on a user instruction asks the kernel to do. */
  datatype Trap = Syscall | TlsWrite(register: nat) | Other

  /** Order of tests of the trap handler: syscall first, then the TLS write. */
  function DecodeTrap(w: Word): Trap {
    if w == SVC0 || w == SYSCALL_BRK then Syscall
    else if w - w % 32 == TLS_WRITE_BRK_BASE then TlsWrite(w % 32)
    else Other
  }

  /** What the original instruction meant to Linux. */
  function LinuxMeaning(w: Word): Trap {
    if w == SVC0 then Syscall
    else if IsTlsWrite(w) then TlsWrite(w % 32)
    else Other
  }

  /** The decoder recovers from a rewritten word the operation and the source register. */
  lemma DecodeRecoversOperation(w: Word)
    requires Translatable(w)
    ensures DecodeTrap(TranslateWord(w)) == LinuxMeaning(w) != Other
    ensures !Translatable(TranslateWord(w)) && TranslateWord(w) != w
  {
    if w == SVC0 {
    } else {
      assert TranslateWord(w) == TLS_WRITE_BRK_BASE + w % 32;
    }
  }

  type Instruction = b: seq<Byte> | |b| == 4 witness [0, 0, 0, 0]

  function WordOf(b: Instruction): Word {
    var b0: int, b1: int, b2: int, b3: int := b[0], b[1], b[2], b[3];
    b0 + 0x100 * b1 + 0x1_0000 * b2 + 0x100_0000 * b3
  }

  predicate IsSvc0(b: Instruction) {
    b[0] == 0x01 && b[1] == 0x00 && b[2] == 0x00 && b[3] == 0xd4
  }

  predicate IsMsrTpidr(b: Instruction) {
    0x40 <= b[0] < 0x60 && b[1] == 0xd0 && b[2] == 0x1b && b[3] == 0xd5
  }

  function Rewrite(b: Instruction): Instruction {
    if IsSvc0(b) then [0x80, 0x9e, 0x20, 0xd4]
    else if IsMsrTpidr(b) then [b[0] + 0x80, 0x9e, 0x20, 0xd4]
    else b
  }

  lemma RewriteIsTranslateWord(b: Instruction)
    ensures IsSvc0(b) <==> WordOf(b) == SVC0
    ensures IsMsrTpidr(b) <==> IsTlsWrite(WordOf(b))
    ensures WordOf(Rewrite(b)) == TranslateWord(WordOf(b))
    ensures Rewrite(b) != b <==> Translatable(WordOf(b))
  {
    assert WordOf(b) % 32 == b[0] % 32;
  }

  /** The page after the rewriting loop; a tail shorter than a word is left alone. */
  function Translate(page: seq<Byte>): (r: seq<Byte>)
    ensures |r| == |page|
  {
    if |page| < 4 then page
    else Rewrite(page[..4]) + Translate(page[4..])
  }

  /** No aligned word of the page is one of the two rewritten instructions. */
  ghost predicate Untranslatable(page: seq<Byte>) {
    forall k: nat :: 4 * k + 4 <= |page| ==> !Translatable(WordOf(page[4 * k..4 * k + 4]))
  }

  /** Word by word: the result holds the translated word of the input. */
  lemma {:induction false} TranslateAt(page: seq<Byte>, k: nat)
    requires 4 * k + 4 <= |page|
    ensures Translate(page)[4 * k..4 * k + 4] == Rewrite(page[4 * k..4 * k + 4])
    ensures WordOf(Translate(page)[4 * k..4 * k + 4]) == TranslateWord(WordOf(page[4 * k..4 * k + 4]))
  {
    RewriteIsTranslateWord(page[4 * k..4 * k + 4]);
    hide Rewrite, WordOf, TranslateWord;
    if k > 0 {
      var rest := page[4..];
      var i := 4 * (k - 1);
      TranslateAt(rest, k - 1);
      SliceOfSlice(page, 4, |page|, i, i + 4);
      SliceOfSlice(Translate(page), 4, |page|, i, i + 4);
      assert page[4..|page|] == rest && Translate(page)[4..|page|] == Translate(rest);
    } else {
      assert page[4 * k..4 * k + 4] == page[..4];
      assert Translate(page)[4 * k..4 * k + 4] == Rewrite(page[..4]);
    }
  }

  /** The rewriting of a page splits at every word boundary. */
  lemma {:induction false} TranslateSplits(page: seq<Byte>, k: nat)
    requires 4 * k <= |page|
    ensures Translate(page) == Translate(page[..4 * k]) + Translate(page[4 * k..])
  {
    if k == 0 {
      assert page[4 * k..] == page;
    } else {
      var rest := page[4..];
      TranslateSplits(rest, k - 1);
      assert page[..4 * k][4..] == rest[..4 * (k - 1)];
      assert page[4 * k..] == rest[4 * (k - 1)..];
      assert page[..4 * k][..4] == page[..4];
    }
  }

  /** The page is a fixed point of the rewriting exactly when no aligned word asks for it. */
  lemma TranslateFixesExactly(page: seq<Byte>)
    ensures Translate(page) == page <==> Untranslatable(page)
  {
    if Translate(page) == page {
      forall k: nat | 4 * k + 4 <= |page|
        ensures !Translatable(WordOf(page[4 * k..4 * k + 4]))
      {
        TranslateAt(page, k);
        RewriteIsTranslateWord(page[4 * k..4 * k + 4]);
      }
    }
    if Untranslatable(page) {
      forall i | 0 <= i < |page|
        ensures Translate(page)[i] == page[i]
      {
        TranslateKeepsOtherBytes(page, i);
      }
    }
  }

  /** Bytes outside the rewritten instructions, a partial word at the end included, are kept. */
  lemma {:induction false} TranslateKeepsOtherBytes(page: seq<Byte>, i: nat)
    requires i < |page|
    requires var k := i / 4; 4 * k + 4 <= |page| ==> !Translatable(WordOf(page[4 * k..4 * k + 4]))
    ensures Translate(page)[i] == page[i]
  {
    var k := i / 4;
    if 4 * k + 4 <= |page| {
      var old4 := page[4 * k..4 * k + 4];
      TranslateAt(page, k);
      RewriteIsTranslateWord(old4);
      assert Translate(page)[4 * k..4 * k + 4][i - 4 * k] == old4[i - 4 * k];
    } else {
      TranslateSplits(page, k);
      assert |Translate(page[..4 * k])| == 4 * k;
    }
  }

  /** Rewriting an already rewritten page changes nothing. */
  lemma TranslateIdempotent(page: seq<Byte>)
    ensures Translate(Translate(page)) == Translate(page)
  {
    var once := Translate(page);
    forall k: nat | 4 * k + 4 <= |once|
      ensures !Translatable(WordOf(once[4 * k..4 * k + 4]))
    {
      TranslateAt(page, k);
      var w := WordOf(page[4 * k..4 * k + 4]);
      if Translatable(w) {
        DecodeRecoversOperation(w);
      }
    }
    TranslateFixesExactly(once);
  }

  lemma TranslateNextWord(page: seq<Byte>, k: nat)
    requires 4 * k + 4 <= |page|
    ensures Translate(page[..4 * k + 4]) == Translate(page[..4 * k]) + Rewrite(page[4 * k..4 * k + 4])
  {
    var longer := page[..4 * k + 4];
    TranslateSplits(longer, k);
    assert longer[..4 * k] == page[..4 * k];
    assert longer[4 * k..] == page[4 * k..4 * k + 4];
    assert longer[4 * k..][..4] == longer[4 * k..];
    assert Translate(longer[4 * k..]) == Rewrite(longer[4 * k..]);
  }

  /** The page while the loop runs: its first `k` words are rewritten. */
  ghost function PartlyTranslated(page: seq<Byte>, k: nat): (r: seq<Byte>)
    requires 4 * k <= |page|
    ensures |r| == |page|
  {
    Translate(page[..4 * k]) + page[4 * k..]
  }

  lemma PartlyTranslatedStep(page: seq<Byte>, k: nat)
    requires 4 * k + 4 <= |page|
    ensures PartlyTranslated(page, k)[4 * k..4 * k + 4] == page[4 * k..4 * k + 4]
    ensures PartlyTranslated(page, k + 1) == Splice(PartlyTranslated(page, k), 4 * k, Rewrite(page[4 * k..4 * k + 4]))
  {
    hide Translate, Rewrite;
    TranslateNextWord(page, k);
    NextPart(Translate(page[..4 * k]), page, 4 * k, Rewrite(page[4 * k..4 * k + 4]));
  }

  /** A front that replaces `at` bytes grows over the next four. */
  lemma NextPart(front: seq<Byte>, page: seq<Byte>, at: nat, word: seq<Byte>)
    requires |front| == at && at + 4 <= |page| && |word| == 4
    ensures (front + page[at..])[at..at + 4] == page[at..at + 4]
    ensures front + word + page[at + 4..] == Splice(front + page[at..], at, word)
  {
    var all := front + page[at..];
    assert all[..at] == front && all[at + 4..] == page[at + 4..];
  }

  lemma PartlyTranslatedEnd(page: seq<Byte>)
    ensures PartlyTranslated(page, |page| / 4) == Translate(page)
  {
    TranslateSplits(page, |page| / 4);
  }

  /** The loop body: reads the word at `at` and writes its replacement over it. */
  method TranslateInstruction(page: array<Byte>, at: nat)
    requires at + 4 <= page.Length
    modifies page
    ensures page[..] == Splice(old(page[..]), at, Rewrite(old(page[at..at + 4])))
  {
    var b := page[at..at + 4];
    var w := WordOf(b);
    RewriteIsTranslateWord(b);
    if w == SVC0 {
      page[at], page[at + 1], page[at + 2], page[at + 3] := 0x80, 0x9e, 0x20, 0xd4;
    } else if w - w % 32 == MSR_TPIDR_EL0 {
      page[at], page[at + 1], page[at + 2], page[at + 3] := b[0] + 0x80, 0x9e, 0x20, 0xd4;
    }
  }

  /** The loop over the words of a page, in place. */
  method TranslateInPlace(page: array<Byte>)
    modifies page
    ensures page[..] == Translate(old(page[..]))
  {
    ghost var before := page[..];
    var count := page.Length / 4;
    var index := 0;
    PartlyTranslatedEnd(before);
    while index < count
      invariant 0 <= index <= count
      invariant page[..] == PartlyTranslated(before, index)
    {
      PartlyTranslatedStep(before, index);
      TranslateInstruction(page, 4 * index);
      index := index + 1;
    }
  }
}
