/** The instruction buffer with its labels, and the program it is turned into. */
module Assembler {
  import opened Options
  import opened Words
  import opened ByteOrder
  import opened MoveWide
  import opened Branches

  datatype Fixup = Fixup(kind: FixupKind, wordIndex: nat, target: nat)

  datatype Program = Program(bytes: seq<byte>, pointerRelocations: seq<u32>)

  /** The move that loads halfword `k` of a pointer: always four of them, so that a later run can
      put another pointer in their place. */
  function PointerMove(destination: nat, pointer: u64, k: nat): (m: Move)
    requires k < 4
  {
    Move(if k == 0 then Movz else Movk, k, Halfword(pointer, k), destination)
  }

  function PointerWord(destination: nat, pointer: u64, k: nat): (w: u32)
    requires destination < 32 && k < 4
  {
    DecodeEncode(PointerMove(destination, pointer, k));
    Encode(PointerMove(destination, pointer, k))
  }

  function PointerWords(destination: nat, pointer: u64): (ws: seq<u32>)
    requires destination < 32
    ensures |ws| == 4
  {
    [PointerWord(destination, pointer, 0), PointerWord(destination, pointer, 1),
     PointerWord(destination, pointer, 2), PointerWord(destination, pointer, 3)]
  }

  method EmitPointer(words: seq<u32>, destination: nat, pointer: u64) returns (r: seq<u32>)
    requires destination < 32
    ensures r == words + PointerWords(destination, pointer)
  {
    hide PointerWord;
    r := words;
    for halfword := 0 to 4
      invariant r == words + PointerWords(destination, pointer)[..halfword]
    {
      r := r + [PointerWord(destination, pointer, halfword)];
    }
  }

  /** The word of a program at a word index. */
  function WordOf(bytes: seq<byte>, i: nat): nat
    requires 4 * i + 4 <= |bytes|
  {
    FromBytes(bytes[4 * i..4 * i + 4])
  }

  class Assembler {
    var words: seq<u32>
    var labelPositions: seq<Option<nat>>
    var fixups: seq<Fixup>
    var pointerRelocations: seq<u32>
    /** The branch that was asked for at each fixup, and the register and pointer of each
        relocation. */
    ghost var branches: seq<Branch>
    ghost var pointers: seq<(nat, u64)>

    ghost predicate Valid()
      reads this
    {
      FixupsValid(words, labelPositions, fixups, branches) && PointersValid(words, pointerRelocations, pointers) &&
      Apart(fixups, pointerRelocations) &&
      forall l | 0 <= l < |labelPositions| && labelPositions[l].Some? :: labelPositions[l].value <= |words|
    }

    constructor ()
      ensures Valid() && words == [] && labelPositions == [] && fixups == [] && pointerRelocations == []
    {
      words, labelPositions, fixups, pointerRelocations := [], [], [], [];
      branches, pointers := [], [];
    }

    /** Any instruction without a label. */
    method Emit(word: u32)
      requires Valid()
      modifies this`words
      ensures Valid() && words == old(words) + [word]
    {
      MoreWords(words, [word], labelPositions, fixups, branches, pointerRelocations, pointers);
      words := words + [word];
    }

    method LoadImmediate(destination: nat, value: u64) returns (ok: bool)
      requires Valid()
      modifies this`words
      ensures Valid() && ok == (destination <= 30)
      ensures !ok ==> words == old(words)
      ensures ok ==> |words| == |old(words)| + MaterialisationCost(value) && words[..|old(words)|] == old(words)
      ensures ok ==> Materialises(words[|old(words)|..], destination, value)
    {
      if destination > 30 {
        return false;
      }
      var ws := MovImmediate(destination, value);
      MoreWords(words, ws, labelPositions, fixups, branches, pointerRelocations, pointers);
      assert (words + ws)[|words|..] == ws;
      words := words + ws;
      ok := true;
    }

    method LoadPointer(destination: nat, pointer: u64) returns (ok: bool)
      requires Valid()
      modifies this`words, this`pointerRelocations, this`pointers
      ensures Valid() && ok == (destination <= 30 && |old(words)| <= (U32_LIMIT - 1) / 4)
      ensures !ok ==> words == old(words) && pointerRelocations == old(pointerRelocations) && pointers == old(pointers)
      ensures ok ==> words == old(words) + PointerWords(destination, pointer)
      ensures ok ==> pointerRelocations == old(pointerRelocations) + [4 * |old(words)|]
      ensures ok ==> pointers == old(pointers) + [(destination, pointer)]
    {
      if destination > 30 || |words| > (U32_LIMIT - 1) / 4 {
        return false;
      }
      hide FixupsValid, PointersValid, Apart, PointerWords, Halfword, Materialises, MaterialisationCost;
      var longer := EmitPointer(words, destination, pointer);
      MorePointers(words, destination, pointer, labelPositions, fixups, branches, pointerRelocations, pointers);
      var offset: u32 := 4 * |words|;
      words, pointerRelocations := longer, pointerRelocations + [offset];
      pointers := pointers + [(destination, pointer)];
      ok := true;
    }

    method MakeLabel() returns (made: Option<nat>)
      requires Valid()
      modifies this`labelPositions
      ensures Valid() && (made.None? <==> |old(labelPositions)| >= U32_LIMIT)
      ensures made.None? ==> labelPositions == old(labelPositions)
      ensures made.Some? ==> made.value == |old(labelPositions)| && labelPositions == old(labelPositions) + [None]
    {
      if |labelPositions| > U32_LIMIT - 1 {
        return None;
      }
      made := Some(|labelPositions|);
      labelPositions := labelPositions + [None];
    }

    method Bind(target: nat) returns (ok: bool)
      requires Valid()
      modifies this`labelPositions
      ensures Valid() && ok == (target < |old(labelPositions)| && old(labelPositions)[target].None?)
      ensures labelPositions == if ok then old(labelPositions)[target := Some(|words|)] else old(labelPositions)
    {
      if target >= |labelPositions| || labelPositions[target].Some? {
        return false;
      }
      labelPositions := labelPositions[target := Some(|words|)];
      ok := true;
    }

    /** `b`, `cbz`, `cbnz`, `b.cond`, `tbz` and `tbnz` to a label that need not be bound yet. */
    method BranchTo(branch: Branch, target: nat) returns (ok: bool)
      requires Valid()
      modifies this`words, this`fixups, this`branches
      ensures Valid() && ok == (Accepts(branch) && target < |labelPositions|)
      ensures !ok ==> words == old(words) && fixups == old(fixups) && branches == old(branches)
      ensures ok ==> |words| == |old(words)| + 1 && words[..|old(words)|] == old(words)
      ensures ok ==> DecodeBranch(words[|old(words)|]) == Some(To(branch, 0))
      ensures ok ==> fixups == old(fixups) + [Fixup(KindOf(branch), |old(words)|, target)]
      ensures ok ==> branches == old(branches) + [branch]
    {
      if target >= |labelPositions| || !Accepts(branch) {
        return false;
      }
      PlaceholderDecodes(branch);
      var word: u32 := Placeholder(branch);
      MoreFixups(words, branch, target, labelPositions, fixups, branches, pointerRelocations, pointers);
      fixups := fixups + [Fixup(KindOf(branch), |words|, target)];
      branches := branches + [branch];
      words := words + [word];
      ok := true;
    }

    /** The program exists exactly if every label that is branched to is bound within reach.
        Every branch then goes to its label and every other word is as it was emitted. */
    method Finish() returns (program: Option<Program>)
      requires Valid()
      modifies this`words
      ensures program.Some? <==> forall j | 0 <= j < |fixups| :: Resolvable(fixups[j], labelPositions)
      ensures program.Some? ==>
        |program.value.bytes| == 4 * |old(words)| && program.value.pointerRelocations == pointerRelocations
      ensures program.Some? ==> forall i | 0 <= i < |old(words)| && IsPlain(fixups, i) ::
        WordOf(program.value.bytes, i) == old(words)[i]
      ensures program.Some? ==> forall j | 0 <= j < |fixups| ::
        BranchesTo(program.value.bytes, fixups[j].wordIndex, branches[j], Displacement(fixups[j], labelPositions))
      ensures program.Some? ==> HoldsPointers(program.value, pointers)
    {
      hide HoldsPointers, FixupsValid, PointersValid, Apart, IsPatched, Patch, InRange, IsPlain, Resolvable,
        Displacement, BranchesTo;
      ghost var before := words;
      SameLength(words, labelPositions, fixups, branches);
      for index := 0 to |fixups|
        invariant |words| == |before| && |branches| == |fixups|
        invariant forall j | 0 <= j < index :: Resolvable(fixups[j], labelPositions)
        invariant forall j | 0 <= j < index :: IsPatched(words, fixups[j], branches[j], labelPositions)
        invariant forall i | 0 <= i < |before| && NotBefore(fixups, index, i) :: words[i] == before[i]
      {
        var fixup := fixups[index];
        FixupInRange(before, labelPositions, fixups, branches, index);
        var position := labelPositions[fixup.target];
        if position.None? {
          Unresolvable(fixup, labelPositions);
          return None;
        }
        var displacement := position.value - fixup.wordIndex;
        if !InRange(fixup.kind, displacement) {
          Unresolvable(fixup, labelPositions);
          return None;
        }
        FixupResolves(before, words, labelPositions, fixups, branches, index);
        var patched: u32 := Patch(fixup.kind, words[fixup.wordIndex], displacement);
        words := words[fixup.wordIndex := patched];
      }
      program := Some(Program(LittleEndian(words), pointerRelocations));
      AllResolved(before, words, labelPositions, fixups, branches);
      PointersKept(before, words, fixups, pointerRelocations, pointers);
    }
  }

  /** Word `i` belongs to none of the first `n` fixups. */
  predicate NotBefore(fixups: seq<Fixup>, n: nat, i: nat)
    requires n <= |fixups|
  {
    forall j | 0 <= j < n :: fixups[j].wordIndex != i
  }

  lemma FixupInRange(words: seq<u32>, labelPositions: seq<Option<nat>>, fixups: seq<Fixup>, branches: seq<Branch>,
                     index: nat)
    requires FixupsValid(words, labelPositions, fixups, branches) && index < |fixups|
    ensures fixups[index].target < |labelPositions| && fixups[index].wordIndex < |words| && |branches| == |fixups|
  {
    hide Placeholder;
    assert FixupValid(words, labelPositions, fixups[index], branches[index]);
  }

  lemma Unresolvable(f: Fixup, labelPositions: seq<Option<nat>>)
    requires f.target < |labelPositions|
    requires labelPositions[f.target].Some? ==> !InRange(f.kind, labelPositions[f.target].value - f.wordIndex)
    ensures !Resolvable(f, labelPositions)
  {
  }

  /** Patching one branch completes it and disturbs no other. */
  lemma FixupResolves(before: seq<u32>, words: seq<u32>, labelPositions: seq<Option<nat>>, fixups: seq<Fixup>,
                      branches: seq<Branch>, index: nat)
    requires FixupsValid(before, labelPositions, fixups, branches) && index < |fixups| && |words| == |before|
    requires labelPositions[fixups[index].target].Some?
    requires InRange(fixups[index].kind, labelPositions[fixups[index].target].value - fixups[index].wordIndex)
    requires forall j | 0 <= j < index :: IsPatched(words, fixups[j], branches[j], labelPositions)
    requires forall i | 0 <= i < |before| && NotBefore(fixups, index, i) :: words[i] == before[i]
    ensures var f := fixups[index];
      var displacement := labelPositions[f.target].value - f.wordIndex;
      Resolvable(f, labelPositions) && Patch(f.kind, words[f.wordIndex], displacement) < U32_LIMIT &&
      (forall j | 0 <= j <= index ::
        IsPatched(words[f.wordIndex := Patch(f.kind, words[f.wordIndex], displacement)], fixups[j], branches[j],
          labelPositions)) &&
      (forall i | 0 <= i < |before| && NotBefore(fixups, index + 1, i) ::
        words[f.wordIndex := Patch(f.kind, words[f.wordIndex], displacement)][i] == before[i])
  {
    hide Placeholder, Patch, DecodeBranch;
    var f := fixups[index];
    assert FixupValid(before, labelPositions, f, branches[index]);
    assert NotBefore(fixups, index, f.wordIndex);
    var displacement := labelPositions[f.target].value - f.wordIndex;
    PatchDecodes(branches[index], displacement);
    var after: seq<u32> := words[f.wordIndex := Patch(f.kind, words[f.wordIndex], displacement)];
    forall i | 0 <= i < |before| && NotBefore(fixups, index + 1, i)
      ensures after[i] == before[i]
    {
      assert NotBefore(fixups, index, i);
    }
  }

  lemma AllResolved(before: seq<u32>, words: seq<u32>, labelPositions: seq<Option<nat>>, fixups: seq<Fixup>,
                    branches: seq<Branch>)
    requires FixupsValid(before, labelPositions, fixups, branches) && |words| == |before|
    requires forall j | 0 <= j < |fixups| :: IsPatched(words, fixups[j], branches[j], labelPositions)
    requires forall i | 0 <= i < |before| && NotBefore(fixups, |fixups|, i) :: words[i] == before[i]
    ensures forall i | 0 <= i < |before| && IsPlain(fixups, i) :: WordOf(LittleEndian(words), i) == before[i]
    ensures forall j | 0 <= j < |fixups| ::
      BranchesTo(LittleEndian(words), fixups[j].wordIndex, branches[j], Displacement(fixups[j], labelPositions))
  {
    hide FixupsValid, DecodeBranch, LittleEndian, FromBytes, ToBytes;
    assert |branches| == |fixups| by { SameLength(before, labelPositions, fixups, branches); }
    forall i | 0 <= i < |words|
      ensures WordOf(LittleEndian(words), i) == words[i]
    {
      WordBytes(words, i);
    }
    forall i | 0 <= i < |before| && IsPlain(fixups, i)
      ensures words[i] == before[i]
    {
      assert NotBefore(fixups, |fixups|, i);
    }
  }

  /** Branches are resolved around the pointers. */
  lemma PointersKept(before: seq<u32>, words: seq<u32>, fixups: seq<Fixup>, relocations: seq<u32>,
                     pointers: seq<(nat, u64)>)
    requires PointersValid(before, relocations, pointers) && Apart(fixups, relocations) && |words| == |before|
    requires forall i | 0 <= i < |before| && NotBefore(fixups, |fixups|, i) :: words[i] == before[i]
    ensures HoldsPointers(Program(LittleEndian(words), relocations), pointers)
  {
    hide LittleEndian, PointerWords;
    forall r | 0 <= r < |relocations|
      ensures HoldsPointer(LittleEndian(words), relocations[r], pointers[r])
    {
      PointerKept(before, words, fixups, relocations, pointers, r);
    }
  }

  lemma PointerKept(before: seq<u32>, words: seq<u32>, fixups: seq<Fixup>, relocations: seq<u32>,
                    pointers: seq<(nat, u64)>, r: nat)
    requires PointersValid(before, relocations, pointers) && Apart(fixups, relocations) && |words| == |before|
    requires forall i | 0 <= i < |before| && NotBefore(fixups, |fixups|, i) :: words[i] == before[i]
    requires r < |relocations|
    ensures HoldsPointer(LittleEndian(words), relocations[r], pointers[r])
  {
    hide LittleEndian, PointerWords;
    var first := relocations[r] / 4;
    assert PointerValid(before, relocations[r], pointers[r]);
    forall i | first <= i < first + 4
      ensures words[i] == before[i]
    {
      forall j | 0 <= j < |fixups|
        ensures fixups[j].wordIndex != i
      {
        assert Outside(fixups[j].wordIndex, relocations[r]);
      }
      assert NotBefore(fixups, |fixups|, i);
    }
    assert words[first..first + 4] == before[first..first + 4];
    LittleEndianSlice(words, first, first + 4);
  }

  lemma SameLength(words: seq<u32>, labelPositions: seq<Option<nat>>, fixups: seq<Fixup>, branches: seq<Branch>)
    requires FixupsValid(words, labelPositions, fixups, branches)
    ensures |branches| == |fixups|
  {
    hide FixupValid;
  }

  predicate Resolvable(f: Fixup, labelPositions: seq<Option<nat>>) {
    f.target < |labelPositions| && labelPositions[f.target].Some? && InRange(f.kind, Displacement(f, labelPositions))
  }

  /** From the branch to its label, in words. */
  function Displacement(f: Fixup, labelPositions: seq<Option<nat>>): int {
    if f.target < |labelPositions| && labelPositions[f.target].Some? then labelPositions[f.target].value - f.wordIndex
      else 0
  }

  predicate IsPlain(fixups: seq<Fixup>, i: nat) {
    forall j | 0 <= j < |fixups| :: fixups[j].wordIndex != i
  }

  predicate IsPatched(words: seq<u32>, f: Fixup, b: Branch, labelPositions: seq<Option<nat>>) {
    f.wordIndex < |words| && DecodeBranch(words[f.wordIndex]) == Some(To(b, Displacement(f, labelPositions)))
  }

  predicate BranchesTo(bytes: seq<byte>, i: nat, b: Branch, displacement: int) {
    4 * i + 4 <= |bytes| && WordOf(bytes, i) < U32_LIMIT && DecodeBranch(WordOf(bytes, i)) == Some(To(b, displacement))
  }

  // ----- what every method keeps

  ghost predicate FixupsValid(words: seq<u32>, labelPositions: seq<Option<nat>>, fixups: seq<Fixup>,
                              branches: seq<Branch>) {
    |branches| == |fixups| &&
    (forall j | 0 <= j < |fixups| :: FixupValid(words, labelPositions, fixups[j], branches[j])) &&
    (forall j, k | 0 <= j < k < |fixups| :: fixups[j].wordIndex < fixups[k].wordIndex)
  }

  predicate FixupValid(words: seq<u32>, labelPositions: seq<Option<nat>>, f: Fixup, b: Branch) {
    f.wordIndex < |words| && f.target < |labelPositions| && f.kind == KindOf(b) &&
    Accepts(b) && words[f.wordIndex] == Placeholder(b)
  }

  ghost predicate PointersValid(words: seq<u32>, relocations: seq<u32>, pointers: seq<(nat, u64)>) {
    |pointers| == |relocations| &&
    (forall r | 0 <= r < |relocations| :: PointerValid(words, relocations[r], pointers[r])) &&
    (forall r, s | 0 <= r < s < |relocations| :: Spaced(relocations[r], relocations[s]))
  }

  /** A program with its pointers: at each recorded offset, far enough from the others, the
      four words that load one. */
  ghost predicate HoldsPointers(program: Program, pointers: seq<(nat, u64)>) {
    |pointers| == |program.pointerRelocations| &&
    (forall r | 0 <= r < |pointers| :: HoldsPointer(program.bytes, program.pointerRelocations[r], pointers[r])) &&
    (forall r, s | 0 <= r < s < |pointers| :: Spaced(program.pointerRelocations[r], program.pointerRelocations[s]))
  }

  predicate HoldsPointer(bytes: seq<byte>, offset: u32, p: (nat, u64)) {
    offset % 4 == 0 && offset + 16 <= |bytes| && p.0 <= 30 &&
    bytes[offset..offset + 16] == LittleEndian(PointerWords(p.0, p.1))
  }

  predicate Spaced(a: nat, b: nat) {
    a + 16 <= b
  }

  predicate PointerValid(words: seq<u32>, offset: u32, p: (nat, u64)) {
    offset % 4 == 0 && offset / 4 + 4 <= |words| && p.0 <= 30 &&
    words[offset / 4..offset / 4 + 4] == PointerWords(p.0, p.1)
  }

  /** No branch is among the words of a pointer. */
  ghost predicate Apart(fixups: seq<Fixup>, relocations: seq<u32>) {
    forall j, r | 0 <= j < |fixups| && 0 <= r < |relocations| :: Outside(fixups[j].wordIndex, relocations[r])
  }

  predicate Outside(i: nat, offset: u32) {
    i < offset / 4 || offset / 4 + 4 <= i
  }

  lemma MoreWords(words: seq<u32>, more: seq<u32>, labelPositions: seq<Option<nat>>, fixups: seq<Fixup>,
                  branches: seq<Branch>, relocations: seq<u32>, pointers: seq<(nat, u64)>)
    requires FixupsValid(words, labelPositions, fixups, branches) && PointersValid(words, relocations, pointers)
    ensures FixupsValid(words + more, labelPositions, fixups, branches) &&
      PointersValid(words + more, relocations, pointers)
  {
    hide PointerWords, Placeholder;
    var longer := words + more;
    forall j | 0 <= j < |fixups|
      ensures FixupValid(longer, labelPositions, fixups[j], branches[j])
    {
      assert FixupValid(words, labelPositions, fixups[j], branches[j]);
    }
    forall r | 0 <= r < |relocations|
      ensures PointerValid(longer, relocations[r], pointers[r])
    {
      var first := relocations[r] / 4;
      assert PointerValid(words, relocations[r], pointers[r]);
      assert longer[first..first + 4] == words[first..first + 4];
    }
  }

  lemma MorePointers(words: seq<u32>, destination: nat, pointer: u64, labelPositions: seq<Option<nat>>,
                     fixups: seq<Fixup>, branches: seq<Branch>, relocations: seq<u32>, pointers: seq<(nat, u64)>)
    requires FixupsValid(words, labelPositions, fixups, branches) && PointersValid(words, relocations, pointers)
    requires Apart(fixups, relocations)
    requires destination <= 30 && 4 * |words| < U32_LIMIT
    ensures var longer, offset := words + PointerWords(destination, pointer), 4 * |words|;
      FixupsValid(longer, labelPositions, fixups, branches) &&
      PointersValid(longer, relocations + [offset], pointers + [(destination, pointer)]) &&
      Apart(fixups, relocations + [offset])
  {
    hide PointerWords, Placeholder;
    var more := PointerWords(destination, pointer);
    MoreWords(words, more, labelPositions, fixups, branches, relocations, pointers);
    var longer, offset := words + more, 4 * |words|;
    assert longer[offset / 4..offset / 4 + 4] == more;
    forall j | 0 <= j < |fixups|
      ensures Outside(fixups[j].wordIndex, offset)
    {
      assert FixupValid(words, labelPositions, fixups[j], branches[j]);
    }
    forall r | 0 <= r < |relocations|
      ensures Spaced(relocations[r], offset)
    {
      assert PointerValid(words, relocations[r], pointers[r]);
    }
  }

  lemma MoreFixups(words: seq<u32>, branch: Branch, target: nat, labelPositions: seq<Option<nat>>, fixups: seq<Fixup>,
                   branches: seq<Branch>, relocations: seq<u32>, pointers: seq<(nat, u64)>)
    requires FixupsValid(words, labelPositions, fixups, branches) && PointersValid(words, relocations, pointers)
    requires Apart(fixups, relocations)
    requires Accepts(branch) && target < |labelPositions| && Placeholder(branch) < U32_LIMIT
    ensures var longer := words + [Placeholder(branch)];
      var more := fixups + [Fixup(KindOf(branch), |words|, target)];
      FixupsValid(longer, labelPositions, more, branches + [branch]) &&
      PointersValid(longer, relocations, pointers) && Apart(more, relocations)
  {
    hide PointerWords, Placeholder;
    var w: u32 := Placeholder(branch);
    MoreWords(words, [w], labelPositions, fixups, branches, relocations, pointers);
    forall j | 0 <= j < |fixups|
      ensures fixups[j].wordIndex < |words|
    {
      assert FixupValid(words, labelPositions, fixups[j], branches[j]);
    }
    forall r | 0 <= r < |relocations|
      ensures Outside(|words|, relocations[r])
    {
      assert PointerValid(words, relocations[r], pointers[r]);
    }
  }

  /** The four moves load the pointer, whatever the register held. */
  lemma PointerIsLoaded(destination: nat, pointer: u64)
    requires destination <= 30
    ensures Materialises(PointerWords(destination, pointer), destination, pointer)
  {
    forall h: Halves
      ensures Run(PointerWords(destination, pointer), destination, h) == Some(Split(pointer))
    {
      LoadsPrefix(destination, pointer, h, 4);
      hide Encode, Decode, PointerWords, Run, Split;
      assert PointerWords(destination, pointer)[..4] == PointerWords(destination, pointer);
      assert Prefix(Split(pointer), 4, 0) == Split(pointer);
    }
  }

  lemma {:induction false} LoadsPrefix(destination: nat, pointer: u64, h: Halves, n: nat)
    requires destination <= 30 && 1 <= n <= 4
    ensures Run(PointerWords(destination, pointer)[..n], destination, h) == Some(Prefix(Split(pointer), n, 0))
  {
    hide Encode, Decode, Run, Halfword;
    var ws := PointerWords(destination, pointer);
    var m := PointerMove(destination, pointer, n - 1);
    assert m.immediate == Split(pointer)[n - 1];
    assert ws[n - 1] == Encode(m);
    assert ws[..n] == ws[..n - 1] + [Encode(m)];
    if n > 1 {
      LoadsPrefix(destination, pointer, h, n - 1);
      PrefixNext(Split(pointer), n - 1, 0);
      RunNext(ws[..n - 1], destination, h, m);
    } else {
      assert ws[..0] == [];
      NothingRuns(destination, h);
      RunNext([], destination, h, m);
      assert Step(m, h) == Prefix(Split(pointer), 1, 0);
    }
  }

  lemma NothingRuns(r: nat, h: Halves)
    ensures Run([], r, h) == Some(h)
  {
  }
}
