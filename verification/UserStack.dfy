/** The initial user stack that exec builds, as bytes: words, strings, and the vectors a new process
    reads from its stack pointer (core/exec.c, include/proc.h). */
module UserStack {
  import opened Bits
  import opened Wrappers
  import opened Mmu
  import opened PageTable
  import opened AddressSpace
  import opened VirtualMemory
  import opened Fork

  const ARGS_MAX := 8
  const ENVS_MAX := 16
  const STACK_TOP := 0x7FFF_0000
  const STACK_BOTTOM := 0x7FF0_0000
  const STACK_SIZE := 0xF_0000
  const CONTEXT_SIZE := 248                 // 31 words
  const TRAPFRAME_SIZE := 264               // 33 words
  const USTACK_SIZE := 216                  // ARGS_MAX + 2 + ENVS_MAX + 1 words

  // Offsets from the bottom of the stack.
  const CONTEXT_AT := STACK_SIZE - CONTEXT_SIZE
  const USTACK_AT := CONTEXT_AT - USTACK_SIZE
  const TRAPFRAME_AT := USTACK_AT - TRAPFRAME_SIZE

  // Offsets of the fields that are filled in.
  const CONTEXT_RA := 0
  const CONTEXT_SP := 16
  const TRAPFRAME_SP := 16
  const TRAPFRAME_A0 := 24
  const TRAPFRAME_PRMD := 248
  const TRAPFRAME_ERA := 256

  const WORD_LIMIT := 0x1_0000_0000_0000_0000

  lemma WordFits(w: nat)
    requires w < WORD_LIMIT
    ensures WordValue(WordBytes(w, 8)) == w
  {
    assert Limit(8) == WORD_LIMIT;
    WordRoundTrip(w, 8);
  }

  /** The word at an offset. */
  function WordAt(st: seq<byte>, at: nat): nat {
    if at + 8 <= |st| then WordValue(st[at..at + 8]) else 0
  }

  /** The NUL-terminated string at an offset, None when it runs off the end. */
  function StringAt(st: seq<byte>, at: nat): Option<seq<byte>>
    decreases |st| - at
  {
    if at >= |st| then None
    else if st[at] == 0 then Some([])
    else match StringAt(st, at + 1)
      case None => None
      case Some(s) => Some([st[at]] + s)
  }

  /** What a process finds from a vector of at most `max` string pointers: the strings up to the
      null pointer. None when a pointer leads to no string or no null pointer comes. */
  function VectorAt(st: seq<byte>, at: nat, max: nat): Option<seq<seq<byte>>>
    decreases max
  {
    if WordAt(st, at) == 0 then Some([])
    else if max == 0 || WordAt(st, at) < STACK_BOTTOM then None
    else match StringAt(st, WordAt(st, at) - STACK_BOTTOM)
      case None => None
      case Some(s) =>
        match VectorAt(st, at + 8, max - 1)
        case None => None
        case Some(rest) => Some([s] + rest)
  }

  /** Strings as the kernel is given them: no NUL inside. */
  predicate CString(s: seq<byte>) {
    0 !in s
  }

  /** The bytes of the first i strings, each with its NUL. */
  function Room(strings: seq<seq<byte>>, i: nat): nat
    requires i <= |strings|
  {
    if i == 0 then 0 else Room(strings, i - 1) + |strings[i - 1]| + 1
  }

  function Min(a: nat, b: nat): nat { if a < b then a else b }

  /** The strings that get copied fit below the trapframe. */
  predicate Fits(argv: seq<seq<byte>>, envp: seq<seq<byte>>) {
    Room(argv, Min(|argv|, ARGS_MAX)) + Room(envp, Min(|envp|, ENVS_MAX)) <= TRAPFRAME_AT
  }

  lemma {:induction false} RoomGrows(strings: seq<seq<byte>>, i: nat, j: nat)
    requires i <= j <= |strings|
    ensures Room(strings, i) <= Room(strings, j)
    ensures i < j ==> Room(strings, i) + |strings[i]| + 1 <= Room(strings, j)
  {
    if i < j { RoomGrows(strings, i, j - 1); }
  }

  /** string s stands, NUL and all, at offset `at`. */
  ghost predicate HasString(st: seq<byte>, at: nat, s: seq<byte>) {
    at + |s| + 1 <= |st| && st[at..at + |s| + 1] == s + [0]
  }

  /** The word at w points to string s, which stands at offset `at`. */
  ghost predicate Placed(st: seq<byte>, w: nat, at: nat, s: seq<byte>) {
    WordAt(st, w) == STACK_BOTTOM + at && HasString(st, at, s)
  }

  /** i strings are laid out from offset `base`, and the words from `vec` on point to them. */
  ghost predicate LaidOut(st: seq<byte>, vec: nat, base: nat, strings: seq<seq<byte>>, i: nat) {
    && i <= |strings| && vec + 8 * i <= |st| && base + Room(strings, i) <= |st|
    && forall k | 0 <= k < i ::
         Placed(st, vec + 8 * k, base + Room(strings, k), strings[k])
  }

  lemma {:induction false} StringIsAt(st: seq<byte>, at: nat, s: seq<byte>)
    requires HasString(st, at, s) && CString(s)
    ensures StringAt(st, at) == Some(s)
    decreases |s|
  {
    var w := st[at..at + |s| + 1];
    if s == [] {
      assert w[0] == 0;
    } else {
      assert w[0] == s[0] && s[0] in s && st[at] == s[0];
      assert st[at + 1..at + 1 + |s[1..]| + 1] == w[1..] == s[1..] + [0];
      StringIsAt(st, at + 1, s[1..]);
      assert [s[0]] + s[1..] == s;
    }
  }

  /** A laid-out vector with its null pointer decodes to the strings. */
  lemma {:induction false} VectorDecodes(st: seq<byte>, vec: nat, base: nat, strings: seq<seq<byte>>, i: nat, max: nat)
    requires i <= |strings| && |strings| - i <= max
    requires LaidOut(st, vec, base, strings, |strings|) && forall k | 0 <= k < |strings| :: CString(strings[k])
    requires WordAt(st, vec + 8 * |strings|) == 0
    ensures VectorAt(st, vec + 8 * i, max) == Some(strings[i..])
    decreases |strings| - i
  {
    hide WordAt;
    hide StringAt;
    hide HasString;
    hide Room;
    if i < |strings| {
      var w, at := vec + 8 * i, base + Room(strings, i);
      assert Placed(st, w, at, strings[i]);
      StringIsAt(st, at, strings[i]);
      VectorDecodes(st, vec, base, strings, i + 1, max - 1);
      assert w + 8 == vec + 8 * (i + 1);
      assert [strings[i]] + strings[i + 1..] == strings[i..];
    }
  }

  /** A write elsewhere leaves a word, or a string, as it was. */
  lemma WordKept(st: seq<byte>, off: nat, src: seq<byte>, at: nat)
    requires off + |src| <= |st| && (at + 8 <= off || off + |src| <= at)
    ensures WordAt(Splice(st, off, src), at) == WordAt(st, at)
  {
    if at + 8 <= |st| {
      assert Splice(st, off, src)[at..at + 8] == st[at..at + 8];
    }
  }

  lemma WordWritten(st: seq<byte>, off: nat, w: nat)
    requires off + 8 <= |st| && w < WORD_LIMIT
    ensures WordAt(Splice(st, off, WordBytes(w, 8)), off) == w
  {
    assert Splice(st, off, WordBytes(w, 8))[off..off + 8] == WordBytes(w, 8);
    WordFits(w);
  }

  lemma StringKept(st: seq<byte>, off: nat, src: seq<byte>, at: nat, s: seq<byte>)
    requires off + |src| <= |st| && (at + |s| + 1 <= off || off + |src| <= at)
    requires HasString(st, at, s)
    ensures HasString(Splice(st, off, src), at, s)
  {
    assert Splice(st, off, src)[at..at + |s| + 1] == st[at..at + |s| + 1];
  }

  lemma PlacedKept(st: seq<byte>, off: nat, src: seq<byte>, w: nat, at: nat, s: seq<byte>)
    requires Placed(st, w, at, s) && off + |src| <= |st|
    requires w + 8 <= off || off + |src| <= w
    requires at + |s| + 1 <= off || off + |src| <= at
    ensures Placed(Splice(st, off, src), w, at, s)
  {
    hide WordAt;
    hide HasString;
    WordKept(st, off, src, w);
    StringKept(st, off, src, at, s);
  }

  /** A write outside the strings laid out and outside their pointers keeps the layout. */
  lemma LayoutKept(st: seq<byte>, off: nat, src: seq<byte>, vec: nat, base: nat, strings: seq<seq<byte>>, i: nat)
    requires LaidOut(st, vec, base, strings, i) && off + |src| <= |st|
    requires vec + 8 * i <= off || off + |src| <= vec
    requires base + Room(strings, i) <= off || off + |src| <= base
    ensures LaidOut(Splice(st, off, src), vec, base, strings, i)
  {
    hide Placed;
    hide Room;
    forall k | 0 <= k < i
      ensures Placed(Splice(st, off, src), vec + 8 * k, base + Room(strings, k), strings[k])
    {
      RoomGrows(strings, k, i);
      PlacedKept(st, off, src, vec + 8 * k, base + Room(strings, k), strings[k]);
    }
  }

  /** One more string: its pointer, then its bytes. */
  lemma LayoutMore(st: seq<byte>, vec: nat, base: nat, strings: seq<seq<byte>>, i: nat, st': seq<byte>)
    requires LaidOut(st, vec, base, strings, i) && i < |strings|
    requires vec + 8 * (i + 1) <= |st| && base + Room(strings, i) + |strings[i]| + 1 <= vec
    requires |st| <= STACK_SIZE
    requires st' == Splice(Splice(st, vec + 8 * i, WordBytes(STACK_BOTTOM + base + Room(strings, i), 8)),
                           base + Room(strings, i), strings[i] + [0])
    ensures LaidOut(st', vec, base, strings, i + 1)
  {
    hide Placed;
    hide Room;
    hide WordBytes;
    RoomGrows(strings, i, i + 1);
    RoomStep(strings, i);
    var b := base + Room(strings, i);
    var s1 := Splice(st, vec + 8 * i, WordBytes(STACK_BOTTOM + b, 8));
    LayoutKept(st, vec + 8 * i, WordBytes(STACK_BOTTOM + b, 8), vec, base, strings, i);
    LayoutKept(s1, b, strings[i] + [0], vec, base, strings, i);
    NewPlaced(st, vec + 8 * i, b, strings[i]);
    assert Placed(st', vec + 8 * i, b, strings[i]);
  }

  lemma RoomStep(strings: seq<seq<byte>>, i: nat)
    requires i < |strings|
    ensures Room(strings, i + 1) == Room(strings, i) + |strings[i]| + 1
  {
  }

  lemma NewPlaced(st: seq<byte>, w: nat, b: nat, s: seq<byte>)
    requires w + 8 <= |st| && b + |s| + 1 <= w && b + |s| + 1 <= STACK_SIZE
    ensures Placed(Splice(Splice(st, w, WordBytes(STACK_BOTTOM + b, 8)), b, s + [0]), w, b, s)
  {
    hide WordAt;
    hide WordBytes;
    var s1 := Splice(st, w, WordBytes(STACK_BOTTOM + b, 8));
    WordWritten(st, w, STACK_BOTTOM + b);
    WordKept(s1, b, s + [0], w);
    assert Splice(s1, b, s + [0])[b..b + |s| + 1] == s + [0];
  }

  /** The argument count and the saved registers. */
  ghost predicate Registers(st: seq<byte>, argc: nat, entry: nat, helper: nat) {
    && |st| == STACK_SIZE
    && WordAt(st, USTACK_AT) == argc
    && WordAt(st, CONTEXT_AT + CONTEXT_SP) == STACK_BOTTOM + TRAPFRAME_AT
    && WordAt(st, CONTEXT_AT + CONTEXT_RA) == helper
    && WordAt(st, TRAPFRAME_AT + TRAPFRAME_SP) == STACK_BOTTOM + USTACK_AT
    && WordAt(st, TRAPFRAME_AT + TRAPFRAME_PRMD) == 4
    && WordAt(st, TRAPFRAME_AT + TRAPFRAME_ERA) == entry
  }

  /** The whole initial stack: count and registers, and vectors that decode to the strings. */
  ghost predicate StackImage(st: seq<byte>, argv: seq<seq<byte>>, envp: seq<seq<byte>>, entry: nat, helper: nat) {
    && Registers(st, |argv|, entry, helper)
    && VectorAt(st, USTACK_AT + 8, ARGS_MAX) == Some(argv)
    && VectorAt(st, USTACK_AT + 8 * (|argv| + 2), ENVS_MAX) == Some(envp)
  }

  /** A region of mapped virtual bytes, after a virtual write inside it. */
  lemma RegionWrite(spaces: Spaces, id: nat, lo: nat, st: seq<byte>, dst: nat, src: seq<byte>, mem: Memory, mem': Memory)
    requires id in spaces && ReadsAs(mem, spaces[id].pgtbl, lo, st)
    requires lo <= dst && dst + |src| <= lo + |st| && WroteVirtual(spaces, id, dst, src, mem, mem')
    ensures ReadsAs(mem', spaces[id].pgtbl, lo, Splice(st, dst - lo, src))
  {
    hide VByte;
    var root := spaces[id].pgtbl;
    var r := Splice(st, dst - lo, src);
    forall i | 0 <= i < |r| ensures VByte(mem', root, lo + i) == Some(r[i]) {
      assert VByte(mem, root, lo + i) == Some(st[i]);
    }
  }

  /** A mapped region reads as some bytes. */
  lemma {:induction false} RegionBytes(mem: Memory, root: nat, lo: nat, n: nat) returns (st: seq<byte>)
    requires forall a | lo <= a < lo + n :: VByte(mem, root, a).Some?
    ensures |st| == n && ReadsAs(mem, root, lo, st)
  {
    hide VByte;
    if n == 0 {
      st := [];
    } else {
      var rest := RegionBytes(mem, root, lo, n - 1);
      st := rest + [VByte(mem, root, lo + (n - 1)).value];
      forall i | 0 <= i < n ensures VByte(mem, root, lo + i) == Some(st[i]) {
        if i < n - 1 { assert VByte(mem, root, lo + i) == Some(rest[i]); }
      }
    }
  }

  // The stack after i arguments and then j environment strings.

  const ARGV_AT := USTACK_AT + 8

  function EnvAt(argc: nat): nat { USTACK_AT + 8 * (argc + 2) }

  ghost predicate Strings(st: seq<byte>, argv: seq<seq<byte>>, envp: seq<seq<byte>>, i: nat, j: nat) {
    && |st| == STACK_SIZE && i <= |argv| && i <= ARGS_MAX && j <= |envp| && j <= ENVS_MAX
    && LaidOut(st, ARGV_AT, 0, argv, i)
    && LaidOut(st, EnvAt(i), Room(argv, i), envp, j)
  }

  lemma NoStrings(st: seq<byte>, argv: seq<seq<byte>>, envp: seq<seq<byte>>)
    requires |st| == STACK_SIZE
    ensures Strings(st, argv, envp, 0, 0)
  {
  }

  lemma ArgStep(st: seq<byte>, argv: seq<seq<byte>>, envp: seq<seq<byte>>, i: nat, st': seq<byte>)
    requires Strings(st, argv, envp, i, 0) && i < |argv| && i < ARGS_MAX && Fits(argv, envp)
    requires Room(argv, i) + |argv[i]| + 1 <= TRAPFRAME_AT
    requires st' == Splice(Splice(st, ARGV_AT + 8 * i, WordBytes(STACK_BOTTOM + Room(argv, i), 8)), Room(argv, i), argv[i] + [0])
    ensures Strings(st', argv, envp, i + 1, 0)
  {
    hide WordBytes;
    hide Room;
    LayoutMore(st, ARGV_AT, 0, argv, i, st');
    NoRoom(envp);
  }

  lemma NoRoom(strings: seq<seq<byte>>)
    ensures Room(strings, 0) == 0
  {
  }

  lemma EnvStep(st: seq<byte>, argv: seq<seq<byte>>, envp: seq<seq<byte>>, i: nat, j: nat, st': seq<byte>)
    requires Strings(st, argv, envp, i, j) && j < |envp| && j < ENVS_MAX
    requires Room(argv, i) + Room(envp, j) + |envp[j]| + 1 <= TRAPFRAME_AT
    requires st' == Splice(Splice(st, EnvAt(i) + 8 * j, WordBytes(STACK_BOTTOM + (Room(argv, i) + Room(envp, j)), 8)),
                           Room(argv, i) + Room(envp, j), envp[j] + [0])
    ensures Strings(st', argv, envp, i, j + 1)
  {
    hide WordBytes;
    hide Room;
    hide LaidOut;
    var w := WordBytes(STACK_BOTTOM + (Room(argv, i) + Room(envp, j)), 8);
    LayoutMoreEnv(st, argv, envp, i, j, st');
    NoRoom(argv);
    LayoutKept(st, EnvAt(i) + 8 * j, w, ARGV_AT, 0, argv, i);
    LayoutKept(Splice(st, EnvAt(i) + 8 * j, w), Room(argv, i) + Room(envp, j), envp[j] + [0], ARGV_AT, 0, argv, i);
  }

  lemma LayoutMoreEnv(st: seq<byte>, argv: seq<seq<byte>>, envp: seq<seq<byte>>, i: nat, j: nat, st': seq<byte>)
    requires Strings(st, argv, envp, i, j) && j < |envp| && j < ENVS_MAX
    requires Room(argv, i) + Room(envp, j) + |envp[j]| + 1 <= TRAPFRAME_AT
    requires st' == Splice(Splice(st, EnvAt(i) + 8 * j, WordBytes(STACK_BOTTOM + (Room(argv, i) + Room(envp, j)), 8)),
                           Room(argv, i) + Room(envp, j), envp[j] + [0])
    ensures LaidOut(st', EnvAt(i), Room(argv, i), envp, j + 1)
  {
    hide WordBytes;
    hide Room;
    hide LaidOut;
    assert STACK_BOTTOM + (Room(argv, i) + Room(envp, j)) == STACK_BOTTOM + Room(argv, i) + Room(envp, j);
    LayoutMore(st, EnvAt(i), Room(argv, i), envp, j, st');
  }

  /** A word stored at an offset. */
  datatype Store = Store(at: nat, word: nat)

  /** Word stores, applied in order. */
  function Stored(st: seq<byte>, ws: seq<Store>): (r: seq<byte>)
    requires forall k | 0 <= k < |ws| :: ws[k].at + 8 <= |st|
    ensures |r| == |st|
  {
    if ws == [] then st
    else var n := |ws| - 1; Splice(Stored(st, ws[..n]), ws[n].at, WordBytes(ws[n].word, 8))
  }

  predicate Apart(ws: seq<Store>) {
    forall i, j | 0 <= i < j < |ws| :: ws[i].at + 8 <= ws[j].at || ws[j].at + 8 <= ws[i].at
  }

  lemma StoredMore(st: seq<byte>, ws: seq<Store>, w: Store)
    requires (forall k | 0 <= k < |ws| :: ws[k].at + 8 <= |st|) && w.at + 8 <= |st|
    ensures Stored(st, ws + [w]) == Splice(Stored(st, ws), w.at, WordBytes(w.word, 8))
  {
    assert (ws + [w])[..|ws|] == ws;
  }

  /** Stores that do not overlap all remain. */
  lemma {:induction false} StoresStand(st: seq<byte>, ws: seq<Store>, k: nat)
    requires Apart(ws) && k < |ws| && forall i | 0 <= i < |ws| :: ws[i].at + 8 <= |st| && ws[i].word < WORD_LIMIT
    ensures WordAt(Stored(st, ws), ws[k].at) == ws[k].word
    decreases |ws|
  {
    hide WordAt;
    hide WordBytes;
    var n := |ws| - 1;
    var before := Stored(st, ws[..n]);
    if k == n {
      WordWritten(before, ws[n].at, ws[n].word);
    } else {
      assert ws[..n][k] == ws[k];
      StoresStand(st, ws[..n], k);
      WordKept(before, ws[n].at, WordBytes(ws[n].word, 8), ws[k].at);
    }
  }

  /** A word written in the fixed areas above the strings keeps the strings, if it is no pointer. */
  lemma StringsKept(st: seq<byte>, argv: seq<seq<byte>>, envp: seq<seq<byte>>, i: nat, j: nat, at: nat, w: nat)
    requires Strings(st, argv, envp, i, j) && Room(argv, i) + Room(envp, j) <= TRAPFRAME_AT <= at && at + 8 <= STACK_SIZE
    requires at + 8 <= ARGV_AT || at == ARGV_AT + 8 * i || EnvAt(i) + 8 * j <= at
    ensures Strings(Splice(st, at, WordBytes(w, 8)), argv, envp, i, j)
  {
    hide LaidOut;
    hide WordBytes;
    hide Room;
    NoRoom(argv);
    LayoutKept(st, at, WordBytes(w, 8), ARGV_AT, 0, argv, i);
    LayoutKept(st, at, WordBytes(w, 8), EnvAt(i), Room(argv, i), envp, j);
  }

  /** Stores in the fixed areas, none of them on a string pointer. */
  predicate Clear(ws: seq<Store>, i: nat, j: nat) {
    forall k | 0 <= k < |ws| ::
      && TRAPFRAME_AT <= ws[k].at && ws[k].at + 8 <= STACK_SIZE
      && (ws[k].at + 8 <= ARGV_AT || ws[k].at == ARGV_AT + 8 * i || EnvAt(i) + 8 * j <= ws[k].at)
  }

  lemma {:induction false} StringsStand(st: seq<byte>, argv: seq<seq<byte>>, envp: seq<seq<byte>>, i: nat, j: nat, ws: seq<Store>)
    requires Strings(st, argv, envp, i, j) && Room(argv, i) + Room(envp, j) <= TRAPFRAME_AT && Clear(ws, i, j)
    ensures Strings(Stored(st, ws), argv, envp, i, j)
    decreases |ws|
  {
    hide Strings;
    hide WordBytes;
    hide Room;
    StringsSize(st, argv, envp, i, j);
    if ws != [] {
      var n := |ws| - 1;
      StringsStand(st, argv, envp, i, j, ws[..n]);
      StringsKept(Stored(st, ws[..n]), argv, envp, i, j, ws[n].at, ws[n].word);
    }
  }

  lemma StringsSize(st: seq<byte>, argv: seq<seq<byte>>, envp: seq<seq<byte>>, i: nat, j: nat)
    requires Strings(st, argv, envp, i, j)
    ensures |st| == STACK_SIZE && i <= ARGS_MAX && j <= ENVS_MAX && i <= |argv| && j <= |envp|
  {
  }

  /** The words exec writes last, in its order: the two null pointers, argc, and the saved registers. */
  function LastWords(argc: nat, envc: nat, entry: nat, helper: nat): seq<Store> {
    [ Store(EnvAt(argc) + 8 * envc, 0),
      Store(ARGV_AT + 8 * argc, 0),
      Store(USTACK_AT, argc),
      Store(CONTEXT_AT + CONTEXT_SP, STACK_BOTTOM + TRAPFRAME_AT),
      Store(CONTEXT_AT + CONTEXT_RA, helper),
      Store(TRAPFRAME_AT + TRAPFRAME_SP, STACK_BOTTOM + USTACK_AT),
      Store(TRAPFRAME_AT + TRAPFRAME_PRMD, 4),
      Store(TRAPFRAME_AT + TRAPFRAME_ERA, entry) ]
  }

  lemma LastWordsApart(argc: nat, envc: nat, entry: nat, helper: nat)
    requires argc <= ARGS_MAX && envc <= ENVS_MAX
    ensures Apart(LastWords(argc, envc, entry, helper)) && Clear(LastWords(argc, envc, entry, helper), argc, envc)
  {
  }

  /** Whatever the stack held, the last words leave the count and the saved registers where they are looked
      for. */
  lemma RegistersDone(st: seq<byte>, argc: nat, envc: nat, entry: nat, helper: nat)
    requires argc <= ARGS_MAX && envc <= ENVS_MAX && |st| == STACK_SIZE && entry < WORD_LIMIT && helper < WORD_LIMIT
    ensures (forall k | 0 <= k < 8 :: LastWords(argc, envc, entry, helper)[k].at + 8 <= |st|)
    ensures Registers(Stored(st, LastWords(argc, envc, entry, helper)), argc, entry, helper)
  {
    hide WordAt;
    hide WordBytes;
    hide Stored;
    hide Apart;
    var ws := LastWords(argc, envc, entry, helper);
    LastWordsApart(argc, envc, entry, helper);
    var r := Stored(st, ws);
    forall k | 0 <= k < 8 ensures WordAt(r, ws[k].at) == ws[k].word {
      StoresStand(st, ws, k);
    }
    assert WordAt(r, ws[2].at) == argc;
    assert WordAt(r, ws[3].at) == STACK_BOTTOM + TRAPFRAME_AT && WordAt(r, ws[4].at) == helper;
    assert WordAt(r, ws[5].at) == STACK_BOTTOM + USTACK_AT && WordAt(r, ws[6].at) == 4 && WordAt(r, ws[7].at) == entry;
  }

  /** With all strings copied and the last words written, the stack is the image exec promises:
      argc, argv and envp read back exactly, and the saved registers stand where they are looked for. */
  lemma ImageDone(st: seq<byte>, argv: seq<seq<byte>>, envp: seq<seq<byte>>, entry: nat, helper: nat)
    requires Strings(st, argv, envp, |argv|, |envp|) && Room(argv, |argv|) + Room(envp, |envp|) <= TRAPFRAME_AT
    requires forall k | 0 <= k < |argv| :: CString(argv[k])
    requires forall k | 0 <= k < |envp| :: CString(envp[k])
    requires entry < WORD_LIMIT && helper < WORD_LIMIT
    requires var ws := LastWords(|argv|, |envp|, entry, helper); forall k | 0 <= k < |ws| :: ws[k].at + 8 <= |st|
    ensures StackImage(Stored(st, LastWords(|argv|, |envp|, entry, helper)), argv, envp, entry, helper)
  {
    hide WordAt;
    hide VectorAt;
    hide WordBytes;
    hide Stored;
    hide Room;
    hide LaidOut;
    hide CString;
    hide Apart;
    hide Clear;
    var i, j := |argv|, |envp|;
    var ws := LastWords(i, j, entry, helper);
    LastWordsApart(i, j, entry, helper);
    StringsStand(st, argv, envp, i, j, ws);
    var r := Stored(st, ws);
    RegistersDone(st, i, j, entry, helper);
    StoresStand(st, ws, 0);
    StoresStand(st, ws, 1);
    NoRoom(argv);
    VectorDecodes(r, ARGV_AT, 0, argv, 0, ARGS_MAX);
    VectorDecodes(r, EnvAt(i), Room(argv, i), envp, 0, ENVS_MAX);
    assert argv[0..] == argv && envp[0..] == envp;
  }

  /** The whole stack region of a process is mapped and reads as st. */
  ghost predicate StackIs(mem: Memory, root: nat, st: seq<byte>) {
    |st| == STACK_SIZE && ReadsAs(mem, root, STACK_BOTTOM, st)
  }

  /** After any write through the process's own table the stack is still all mapped. A write inside it goes
      through. */
  lemma Poked(spaces: Spaces, id: nat, owner: Owners, addr: nat, src: seq<byte>, n: nat, st: seq<byte>, mem: Memory, mem': Memory)
    returns (st': seq<byte>)
    requires id in spaces && StackIs(mem, spaces[id].pgtbl, st)
    requires Written(spaces, id, owner, addr, src, n, mem, mem')
    requires n < |src| ==> VByte(mem', spaces[id].pgtbl, addr + n) == None
    ensures OnlyFramesOf(id, mem, owner, mem') && |st| == STACK_SIZE && StackIs(mem', spaces[id].pgtbl, st')
    ensures STACK_BOTTOM <= addr && addr + |src| <= STACK_TOP ==> st' == Splice(st, addr - STACK_BOTTOM, src)
  {
    hide VByte;
    hide OnlyFramesOf;
    var root := spaces[id].pgtbl;
    if STACK_BOTTOM <= addr && addr + |src| <= STACK_TOP {
      if n < |src| {
        StackByte(mem, root, st, addr + n);
      }
      assert src[..n] == src;
      RegionWrite(spaces, id, STACK_BOTTOM, st, addr, src, mem, mem');
      st' := Splice(st, addr - STACK_BOTTOM, src);
    } else {
      st' := seq(STACK_SIZE, i requires 0 <= i < STACK_SIZE => Overlaid(st, addr, src[..n], i));
      forall i | 0 <= i < STACK_SIZE ensures VByte(mem', root, STACK_BOTTOM + i) == Some(st'[i]) {
        StackByte(mem, root, st, STACK_BOTTOM + i);
      }
    }
  }

  /** Byte i of the stack after bytes are written at an address, wherever that is. */
  function Overlaid(st: seq<byte>, addr: nat, src: seq<byte>, i: nat): byte
    requires i < |st|
  {
    if addr <= STACK_BOTTOM + i < addr + |src| then src[STACK_BOTTOM + i - addr] else st[i]
  }

  lemma StackSize(mem: Memory, root: nat, st: seq<byte>)
    requires StackIs(mem, root, st)
    ensures |st| == STACK_SIZE
  {
  }

  lemma StackByte(mem: Memory, root: nat, st: seq<byte>, a: nat)
    requires StackIs(mem, root, st) && STACK_BOTTOM <= a < STACK_TOP
    ensures VByte(mem, root, a) == Some(st[a - STACK_BOTTOM])
  {
    hide VByte;
    var i := a - STACK_BOTTOM;
    assert VByte(mem, root, STACK_BOTTOM + i) == Some(st[i]);
  }

  lemma FramesRefl(id: nat, mem: Memory, owner: Owners)
    requires owner.Keys == mem.Keys
    ensures OnlyFramesOf(id, mem, owner, mem)
  {
  }

  lemma FramesThenThen(id: nat, owner: Owners, m0: Memory, m1: Memory, m2: Memory, m3: Memory)
    requires OnlyFramesOf(id, m0, owner, m1) && OnlyFramesOf(id, m1, owner, m2) && OnlyFramesOf(id, m2, owner, m3)
    ensures OnlyFramesOf(id, m0, owner, m3)
  {
  }

  lemma StartStack(id: nat, mem: Memory, owner: Owners, spaces: Spaces, st: seq<byte>, argv: seq<seq<byte>>, envp: seq<seq<byte>>)
    requires Consistent(mem, owner, spaces) && id in spaces && StackIs(mem, spaces[id].pgtbl, st)
    ensures OnlyFramesOf(id, mem, owner, mem) && Strings(st, argv, envp, 0, 0) && Room(argv, 0) == 0
  {
    hide ReadsAs;
    ConsistentKeys(mem, owner, spaces);
    FramesRefl(id, mem, owner);
    NoStrings(st, argv, envp);
  }

  lemma StartLast(id: nat, mem: Memory, owner: Owners, spaces: Spaces, st: seq<byte>)
    requires Consistent(mem, owner, spaces)
    ensures OnlyFramesOf(id, mem, owner, mem) && Stored(st, []) == st
  {
    ConsistentKeys(mem, owner, spaces);
    FramesRefl(id, mem, owner);
  }

  lemma ArgRoom(argv: seq<seq<byte>>, envp: seq<seq<byte>>, i: nat)
    requires i < |argv| && i < ARGS_MAX && Fits(argv, envp)
    ensures Room(argv, i) + |argv[i]| + 1 <= TRAPFRAME_AT
    ensures Room(argv, i + 1) == Room(argv, i) + |argv[i]| + 1
  {
    RoomGrows(argv, i, Min(|argv|, ARGS_MAX));
  }

  lemma EnvRoom(argv: seq<seq<byte>>, envp: seq<seq<byte>>, j: nat)
    requires |argv| <= ARGS_MAX && j < |envp| && j < ENVS_MAX && Fits(argv, envp)
    ensures Room(argv, |argv|) + Room(envp, j) + |envp[j]| + 1 <= TRAPFRAME_AT
    ensures Room(envp, j + 1) == Room(envp, j) + |envp[j]| + 1
  {
    RoomGrows(envp, j, Min(|envp|, ENVS_MAX));
  }

  lemma AllRoom(argv: seq<seq<byte>>, envp: seq<seq<byte>>)
    requires |argv| <= ARGS_MAX && |envp| <= ENVS_MAX && Fits(argv, envp)
    ensures Room(argv, |argv|) + Room(envp, |envp|) <= TRAPFRAME_AT
  {
  }

  /** Kernel pointer k is the same memory as the user address of the saved context. */
  ghost predicate ContextAlias(mem: Memory, root: nat, k: nat) {
    && PageAt(mem, PageDown(k)) && k % PGSIZE + CONTEXT_SIZE == PGSIZE
    && ReadsAs(mem, root, STACK_BOTTOM + CONTEXT_AT, mem[PageDown(k)].bytes[k % PGSIZE..])
  }

  /** Every stack page was just mapped. */
  lemma StackMapped(id: nat, got: seq<nat>, mem0: Memory, owner0: Owners, spaces0: Spaces, mem: Memory, owner: Owners, spaces: Spaces)
    returns (st: seq<byte>)
    requires Consistent(mem, owner, spaces) && Granted(id, STACK_BOTTOM, got, USER_PERM, mem0, owner0, spaces0, mem, owner, spaces)
    requires |got| == STACK_SIZE / PGSIZE
    ensures id in spaces && StackIs(mem, spaces[id].pgtbl, st)
  {
    hide Consistent;
    hide OnlyGrows;
    hide AllZero;
    hide Listed;
    hide VByte;
    hide Mapped;
    forall a: nat | STACK_BOTTOM <= a < STACK_BOTTOM + STACK_SIZE ensures VByte(mem, spaces[id].pgtbl, a).Some? {
      ListedMapped(STACK_BOTTOM, got, USER_PERM, spaces0[id].maps, a);
      SeenIfMapped(mem, owner, spaces, id, a);
    }
    st := RegionBytes(mem, spaces[id].pgtbl, STACK_BOTTOM, STACK_SIZE);
  }

  lemma ListedMapped(start: nat, got: seq<nat>, perm: nat, maps: seq<Mapping>, a: nat)
    requires start % PGSIZE == 0 && start <= a < start + |got| * PGSIZE && a < MAXVA
    ensures Mapped(Listed(start, got, perm) + maps, Vpn(a))
  {
    hide Listed;
    var k := (a - start) / PGSIZE;
    ListedAt(start, got, perm, k);
    assert Vpn(start + k * PGSIZE) == Vpn(a);
    assert (Listed(start, got, perm) + maps)[|got| - 1 - k] == Listed(start, got, perm)[|got| - 1 - k];
  }

  lemma SeenIfMapped(mem: Memory, owner: Owners, spaces: Spaces, id: nat, a: nat)
    requires Consistent(mem, owner, spaces) && id in spaces && a < MAXVA && Mapped(spaces[id].maps, Vpn(a))
    ensures VByte(mem, spaces[id].pgtbl, a).Some?
  {
    hide Consistent;
    hide Leaf;
    hide And;
    hide Or;
    VByteMeans(mem, owner, spaces, id, a);
  }

  /** The translation of the top stack page, as a kernel pointer just past the page. */
  lemma PastTopPage(id: nat, mem: Memory, owner: Owners, spaces: Spaces, pa: nat, st: seq<byte>)
    requires Consistent(mem, owner, spaces) && id in spaces && StackIs(mem, spaces[id].pgtbl, st)
    requires pa == Translate(mem, spaces[id].pgtbl, STACK_TOP - PGSIZE)
    ensures PaToVa(pa + PGSIZE) == FrameOf(mem, spaces[id].pgtbl, Vpn(STACK_TOP - PGSIZE)) + PGSIZE
  {
    hide Consistent;
    hide Leaf;
    hide And;
    hide Or;
    hide VByte;
    hide Mapped;
    hide Vpn;
    var root := spaces[id].pgtbl;
    var page := STACK_TOP - PGSIZE;
    StackByte(mem, root, st, page);
    TranslateMeans(mem, owner, spaces, id, page);
    assert PageDown(page) == page && page % PGSIZE == 0;
    LeafMeaning(mem, owner, spaces, id, Vpn(page));
    PaToVaAdds(pa + PGSIZE);
    PaToVaAdds(pa);
  }

  /** Filling frames moves no page. */
  lemma SameFrames(id: nat, mem: Memory, owner: Owners, spaces: Spaces, mem': Memory, v: nat)
    requires Consistent(mem, owner, spaces) && id in spaces && OnlyFramesOf(id, mem, owner, mem') && v < VPAGES
    ensures FrameOf(mem', spaces[id].pgtbl, v) == FrameOf(mem, spaces[id].pgtbl, v)
  {
    hide Consistent;
    hide Leaf;
    hide OnlyFramesOf;
    hide And;
    hide Or;
    FramesOnly(mem, owner, spaces, id, mem');
  }

  lemma ContextPointer(id: nat, mem: Memory, owner: Owners, spaces: Spaces, st: seq<byte>, k: nat)
    requires Consistent(mem, owner, spaces) && id in spaces && StackIs(mem, spaces[id].pgtbl, st)
    requires k + CONTEXT_SIZE == FrameOf(mem, spaces[id].pgtbl, Vpn(STACK_TOP - PGSIZE)) + PGSIZE
    ensures ContextAlias(mem, spaces[id].pgtbl, k)
  {
    hide Consistent;
    hide Leaf;
    hide And;
    hide Or;
    hide VByte;
    hide Mapped;
    hide Vpn;
    var root := spaces[id].pgtbl;
    var a := STACK_BOTTOM + CONTEXT_AT;
    StackByte(mem, root, st, a);
    TranslateMeans(mem, owner, spaces, id, a);
    ContextPage();
    var f := FrameOf(mem, root, Vpn(a));
    InPage(f, PGSIZE - CONTEXT_SIZE);
    ReadInPage(mem, owner, spaces, id, a, CONTEXT_SIZE);
    assert mem[f].bytes[PGSIZE - CONTEXT_SIZE..PGSIZE] == mem[f].bytes[PGSIZE - CONTEXT_SIZE..];
  }

  lemma ContextPage()
    ensures Vpn(STACK_BOTTOM + CONTEXT_AT) == Vpn(STACK_TOP - PGSIZE)
    ensures (STACK_BOTTOM + CONTEXT_AT) % PGSIZE == PGSIZE - CONTEXT_SIZE
  {
  }

  // fork: three words of the child's image are overwritten.

  ghost predicate MappedRange(mem: Memory, root: nat, lo: nat, n: nat) {
    forall a | lo <= a < lo + n :: VByte(mem, root, a).Some?
  }

  /** Parent and child see the same bytes, except at the three words fork writes into the child. */
  ghost predicate ForkedImage(mem: Memory, parent: nat, child: nat, trapframe: nat, context: nat) {
    forall a: nat ::
      VByte(mem, child, a) == VByte(mem, parent, a)
      || trapframe + TRAPFRAME_A0 <= a < trapframe + TRAPFRAME_A0 + 8
      || context + CONTEXT_SP <= a < context + CONTEXT_SP + 8
      || context + CONTEXT_RA <= a < context + CONTEXT_RA + 8
  }

  /** A copy into a mapped range goes through. */
  lemma FullWrite(spaces: Spaces, id: nat, owner: Owners, dst: nat, src: seq<byte>, n: nat, mem: Memory, mem': Memory)
    requires id in spaces && Written(spaces, id, owner, dst, src, n, mem, mem')
    requires n < |src| ==> VByte(mem', spaces[id].pgtbl, dst + n) == None
    requires MappedRange(mem, spaces[id].pgtbl, dst, |src|)
    ensures n == |src| && WroteVirtual(spaces, id, dst, src, mem, mem')
  {
    hide VByte;
    if n < |src| {
      MappedAt(mem, spaces[id].pgtbl, dst, |src|, dst + n);
    }
    assert src[..|src|] == src;
  }

  lemma MappedAt(mem: Memory, root: nat, lo: nat, n: nat, a: nat)
    requires MappedRange(mem, root, lo, n) && lo <= a < lo + n
    ensures VByte(mem, root, a).Some?
  {
  }

  /** The words are there when their places are mapped; the one in the trapframe is only certain when
      it does not overlap the two in the context, which are written after it. */
  ghost predicate ForkWords(mem: Memory, child: nat, trapframe: nat, context: nat, helper: nat, mapped: bool, tfMapped: bool) {
    && (mapped ==>
          && ReadsAs(mem, child, context + CONTEXT_SP, WordBytes(trapframe, 8))
          && ReadsAs(mem, child, context + CONTEXT_RA, WordBytes(helper, 8)))
    && (tfMapped && (trapframe + TRAPFRAME_A0 + 8 <= context || context + CONTEXT_SIZE <= trapframe + TRAPFRAME_A0) ==>
          ReadsAs(mem, child, trapframe + TRAPFRAME_A0, WordBytes(0, 8)))
  }

  lemma ForkViews(spaces: Spaces, p: nat, np: nat, owner: Owners, trapframe: nat, context: nat, helper: nat,
                   n1: nat, n2: nat, n3: nat, m0: Memory, m1: Memory, m2: Memory, m3: Memory)
    requires p in spaces && np in spaces && p != np
    requires forall a: nat :: VByte(m0, spaces[np].pgtbl, a) == VByte(m0, spaces[p].pgtbl, a)
    requires Written(spaces, np, owner, trapframe + TRAPFRAME_A0, WordBytes(0, 8), n1, m0, m1)
    requires n1 < 8 ==> VByte(m1, spaces[np].pgtbl, trapframe + TRAPFRAME_A0 + n1) == None
    requires Written(spaces, np, owner, context + CONTEXT_SP, WordBytes(trapframe, 8), n2, m1, m2)
    requires n2 < 8 ==> VByte(m2, spaces[np].pgtbl, context + CONTEXT_SP + n2) == None
    requires Written(spaces, np, owner, context + CONTEXT_RA, WordBytes(helper, 8), n3, m2, m3)
    requires n3 < 8 ==> VByte(m3, spaces[np].pgtbl, context + CONTEXT_RA + n3) == None
    ensures ForkedImage(m3, spaces[p].pgtbl, spaces[np].pgtbl, trapframe, context)
    ensures forall a: nat :: VByte(m3, spaces[p].pgtbl, a) == VByte(m0, spaces[p].pgtbl, a)
  {
    hide VByte;
    hide WordBytes;
    hide OnlyFramesOf;
    hide Written;
    WriteSeen(spaces, p, np, owner, trapframe + TRAPFRAME_A0, WordBytes(0, 8), n1, m0, m1);
    WriteSeen(spaces, p, np, owner, context + CONTEXT_SP, WordBytes(trapframe, 8), n2, m1, m2);
    WriteSeen(spaces, p, np, owner, context + CONTEXT_RA, WordBytes(helper, 8), n3, m2, m3);
    forall a: nat
      ensures VByte(m3, spaces[p].pgtbl, a) == VByte(m0, spaces[p].pgtbl, a)
      ensures VByte(m3, spaces[np].pgtbl, a) == VByte(m3, spaces[p].pgtbl, a)
              || trapframe + TRAPFRAME_A0 <= a < trapframe + TRAPFRAME_A0 + 8
              || context + CONTEXT_SP <= a < context + CONTEXT_SP + 8
              || context + CONTEXT_RA <= a < context + CONTEXT_RA + 8
    {
      assert SeenSame(spaces, p, np, trapframe + TRAPFRAME_A0, m0, m1, a);
      assert SeenSame(spaces, p, np, context + CONTEXT_SP, m1, m2, a);
      assert SeenSame(spaces, p, np, context + CONTEXT_RA, m2, m3, a);
    }
  }

  /** After writing a word at dst of np, byte a is the same for p, and for np unless in the word. */
  ghost predicate SeenSame(spaces: Spaces, p: nat, np: nat, dst: nat, m: Memory, m': Memory, a: nat)
    requires p in spaces && np in spaces
  {
    && VByte(m', spaces[p].pgtbl, a) == VByte(m, spaces[p].pgtbl, a)
    && (VByte(m', spaces[np].pgtbl, a) == VByte(m, spaces[np].pgtbl, a) || dst <= a < dst + 8)
  }

  lemma WriteSeen(spaces: Spaces, p: nat, np: nat, owner: Owners, dst: nat, src: seq<byte>, n: nat, m: Memory, m': Memory)
    requires p in spaces && np in spaces && p != np && |src| == 8
    requires Written(spaces, np, owner, dst, src, n, m, m')
    ensures forall a: nat :: SeenSame(spaces, p, np, dst, m, m', a)
  {
    hide VByte;
  }

  lemma ForkContextWords(spaces: Spaces, p: nat, np: nat, owner: Owners, trapframe: nat, context: nat, helper: nat,
                   n1: nat, n2: nat, n3: nat, m0: Memory, m1: Memory, m2: Memory, m3: Memory)
    requires p in spaces && np in spaces && p != np
    requires forall a: nat :: VByte(m0, spaces[np].pgtbl, a) == VByte(m0, spaces[p].pgtbl, a)
    requires Written(spaces, np, owner, trapframe + TRAPFRAME_A0, WordBytes(0, 8), n1, m0, m1)
    requires n1 < 8 ==> VByte(m1, spaces[np].pgtbl, trapframe + TRAPFRAME_A0 + n1) == None
    requires Written(spaces, np, owner, context + CONTEXT_SP, WordBytes(trapframe, 8), n2, m1, m2)
    requires n2 < 8 ==> VByte(m2, spaces[np].pgtbl, context + CONTEXT_SP + n2) == None
    requires Written(spaces, np, owner, context + CONTEXT_RA, WordBytes(helper, 8), n3, m2, m3)
    requires n3 < 8 ==> VByte(m3, spaces[np].pgtbl, context + CONTEXT_RA + n3) == None
    requires MappedRange(m0, spaces[p].pgtbl, context, CONTEXT_SIZE)
    ensures ReadsAs(m3, spaces[np].pgtbl, context + CONTEXT_SP, WordBytes(trapframe, 8))
    ensures ReadsAs(m3, spaces[np].pgtbl, context + CONTEXT_RA, WordBytes(helper, 8))
  {
    hide VByte;
    hide WordBytes;
    hide Written;
    hide WroteVirtual;
    hide ReadsAs;
    assert MappedRange(m0, spaces[np].pgtbl, context, CONTEXT_SIZE);
    StaysMapped(spaces, np, owner, trapframe + TRAPFRAME_A0, WordBytes(0, 8), n1, m0, m1, context, CONTEXT_SIZE);
    FullWrite(spaces, np, owner, context + CONTEXT_SP, WordBytes(trapframe, 8), n2, m1, m2);
    StaysMapped(spaces, np, owner, context + CONTEXT_SP, WordBytes(trapframe, 8), n2, m1, m2, context, CONTEXT_SIZE);
    FullWrite(spaces, np, owner, context + CONTEXT_RA, WordBytes(helper, 8), n3, m2, m3);
    ReadBack(spaces, np, context + CONTEXT_SP, WordBytes(trapframe, 8), m1, m2);
    ReadsKept(spaces, np, context + CONTEXT_RA, WordBytes(helper, 8), m2, m3, context + CONTEXT_SP, WordBytes(trapframe, 8));
    ReadBack(spaces, np, context + CONTEXT_RA, WordBytes(helper, 8), m2, m3);
  }

  lemma ForkTrapframeWord(spaces: Spaces, p: nat, np: nat, owner: Owners, trapframe: nat, context: nat, helper: nat,
                   n1: nat, n2: nat, n3: nat, m0: Memory, m1: Memory, m2: Memory, m3: Memory)
    requires p in spaces && np in spaces && p != np
    requires forall a: nat :: VByte(m0, spaces[np].pgtbl, a) == VByte(m0, spaces[p].pgtbl, a)
    requires Written(spaces, np, owner, trapframe + TRAPFRAME_A0, WordBytes(0, 8), n1, m0, m1)
    requires n1 < 8 ==> VByte(m1, spaces[np].pgtbl, trapframe + TRAPFRAME_A0 + n1) == None
    requires Written(spaces, np, owner, context + CONTEXT_SP, WordBytes(trapframe, 8), n2, m1, m2)
    requires n2 < 8 ==> VByte(m2, spaces[np].pgtbl, context + CONTEXT_SP + n2) == None
    requires Written(spaces, np, owner, context + CONTEXT_RA, WordBytes(helper, 8), n3, m2, m3)
    requires n3 < 8 ==> VByte(m3, spaces[np].pgtbl, context + CONTEXT_RA + n3) == None
    requires MappedRange(m0, spaces[p].pgtbl, trapframe + TRAPFRAME_A0, 8)
    requires trapframe + TRAPFRAME_A0 + 8 <= context || context + CONTEXT_SIZE <= trapframe + TRAPFRAME_A0
    ensures ReadsAs(m3, spaces[np].pgtbl, trapframe + TRAPFRAME_A0, WordBytes(0, 8))
  {
    hide VByte;
    hide WordBytes;
    hide OnlyFramesOf;
    hide WroteVirtual;
    hide ReadsAs;
    assert MappedRange(m0, spaces[np].pgtbl, trapframe + TRAPFRAME_A0, 8);
    FullWrite(spaces, np, owner, trapframe + TRAPFRAME_A0, WordBytes(0, 8), n1, m0, m1);
    ReadBack(spaces, np, trapframe + TRAPFRAME_A0, WordBytes(0, 8), m0, m1);
    ReadsKept(spaces, np, context + CONTEXT_SP, WordBytes(trapframe, 8)[..n2], m1, m2, trapframe + TRAPFRAME_A0, WordBytes(0, 8));
    ReadsKept(spaces, np, context + CONTEXT_RA, WordBytes(helper, 8)[..n3], m2, m3, trapframe + TRAPFRAME_A0, WordBytes(0, 8));
  }

  lemma ForkWrites(spaces: Spaces, p: nat, np: nat, owner: Owners, trapframe: nat, context: nat, helper: nat,
                   n1: nat, n2: nat, n3: nat, m0: Memory, m1: Memory, m2: Memory, m3: Memory)
    requires p in spaces && np in spaces && p != np
    requires forall a: nat :: VByte(m0, spaces[np].pgtbl, a) == VByte(m0, spaces[p].pgtbl, a)
    requires Written(spaces, np, owner, trapframe + TRAPFRAME_A0, WordBytes(0, 8), n1, m0, m1)
    requires n1 < 8 ==> VByte(m1, spaces[np].pgtbl, trapframe + TRAPFRAME_A0 + n1) == None
    requires Written(spaces, np, owner, context + CONTEXT_SP, WordBytes(trapframe, 8), n2, m1, m2)
    requires n2 < 8 ==> VByte(m2, spaces[np].pgtbl, context + CONTEXT_SP + n2) == None
    requires Written(spaces, np, owner, context + CONTEXT_RA, WordBytes(helper, 8), n3, m2, m3)
    requires n3 < 8 ==> VByte(m3, spaces[np].pgtbl, context + CONTEXT_RA + n3) == None
    ensures ForkedImage(m3, spaces[p].pgtbl, spaces[np].pgtbl, trapframe, context)
    ensures forall a: nat :: VByte(m3, spaces[p].pgtbl, a) == VByte(m0, spaces[p].pgtbl, a)
    ensures ForkWords(m3, spaces[np].pgtbl, trapframe, context, helper,
                      MappedRange(m0, spaces[p].pgtbl, context, CONTEXT_SIZE),
                      MappedRange(m0, spaces[p].pgtbl, trapframe + TRAPFRAME_A0, 8))
  {
    hide VByte;
    hide WordBytes;
    hide Written;
    hide ReadsAs;
    hide MappedRange;
    hide ForkedImage;
    ForkViews(spaces, p, np, owner, trapframe, context, helper, n1, n2, n3, m0, m1, m2, m3);
    if MappedRange(m0, spaces[p].pgtbl, context, CONTEXT_SIZE) {
      ForkContextWords(spaces, p, np, owner, trapframe, context, helper, n1, n2, n3, m0, m1, m2, m3);
    }
    if MappedRange(m0, spaces[p].pgtbl, trapframe + TRAPFRAME_A0, 8)
       && (trapframe + TRAPFRAME_A0 + 8 <= context || context + CONTEXT_SIZE <= trapframe + TRAPFRAME_A0) {
      ForkTrapframeWord(spaces, p, np, owner, trapframe, context, helper, n1, n2, n3, m0, m1, m2, m3);
    }
  }

  lemma StaysMapped(spaces: Spaces, id: nat, owner: Owners, dst: nat, src: seq<byte>, n: nat, mem: Memory, mem': Memory, lo: nat, len: nat)
    requires id in spaces && Written(spaces, id, owner, dst, src, n, mem, mem')
    requires MappedRange(mem, spaces[id].pgtbl, lo, len)
    ensures MappedRange(mem', spaces[id].pgtbl, lo, len)
  {
    hide VByte;
  }

  lemma ReadsKept(spaces: Spaces, id: nat, dst: nat, src: seq<byte>, mem: Memory, mem': Memory, at: nat, out: seq<byte>)
    requires id in spaces && WroteVirtual(spaces, id, dst, src, mem, mem') && ReadsAs(mem, spaces[id].pgtbl, at, out)
    requires at + |out| <= dst || dst + |src| <= at
    ensures ReadsAs(mem', spaces[id].pgtbl, at, out)
  {
    hide VByte;
  }

  /** Where the child's saved context lies for the kernel, when the top stack page is mapped. */
  lemma ForkContext(id: nat, mem: Memory, owner: Owners, spaces: Spaces, pa: nat)
    requires Consistent(mem, owner, spaces) && id in spaces
    requires MappedRange(mem, spaces[id].pgtbl, STACK_TOP - CONTEXT_SIZE, CONTEXT_SIZE)
    requires pa == Translate(mem, spaces[id].pgtbl, STACK_TOP - PGSIZE)
    ensures PaToVa(pa + PGSIZE) == FrameOf(mem, spaces[id].pgtbl, Vpn(STACK_TOP - PGSIZE)) + PGSIZE
  {
    hide Consistent;
    hide Leaf;
    hide And;
    hide Or;
    hide VByte;
    hide Mapped;
    hide Vpn;
    var root := spaces[id].pgtbl;
    var page := STACK_TOP - PGSIZE;
    var a := STACK_BOTTOM + CONTEXT_AT;
    assert VByte(mem, root, a).Some?;
    ContextPage();
    assert PageDown(a) == page && PageDown(page) == page;
    TranslateMeans(mem, owner, spaces, id, a);
    LeafMeaning(mem, owner, spaces, id, Vpn(page));
    PaToVaAdds(pa + PGSIZE);
    PaToVaAdds(pa);
  }

  lemma ForkRoots(mem0: Memory, owner0: Owners, spaces0: Spaces, p: nat, np: nat, mem: Memory, owner: Owners, spaces: Spaces)
    requires Consistent(mem0, owner0, spaces0) && OnlyGrows(np, mem0, owner0, mem, owner)
    requires ForkedSpaces(spaces0, p, np, spaces) && p != np
    requires SameView(mem, spaces[p].pgtbl, spaces[np].pgtbl)
    ensures p in spaces && np in spaces && spaces[p].pgtbl == spaces0[p].pgtbl
    ensures forall a: nat :: VByte(mem, spaces[np].pgtbl, a) == VByte(mem, spaces[p].pgtbl, a)
    ensures forall a: nat :: VByte(mem, spaces[p].pgtbl, a) == VByte(mem0, spaces[p].pgtbl, a)
  {
    hide Consistent;
    hide VByte;
    hide Leaf;
    hide OnlyGrows;
    hide And;
    ParentKept(mem0, owner0, spaces0, p, np, mem, owner);
  }

  lemma FinishFork(mem0: Memory, spaces: Spaces, p: nat, np: nat, owner: Owners, trapframe: nat, helper: nat,
                   n1: nat, n2: nat, n3: nat, m0: Memory, m1: Memory, m2: Memory, m3: Memory, pa: nat)
    requires p in spaces && np in spaces && p != np
    requires Consistent(m0, owner, spaces) && Consistent(m1, owner, spaces) && Consistent(m2, owner, spaces)
    requires forall a: nat :: VByte(m0, spaces[np].pgtbl, a) == VByte(m0, spaces[p].pgtbl, a)
    requires forall a: nat :: VByte(m0, spaces[p].pgtbl, a) == VByte(mem0, spaces[p].pgtbl, a)
    requires pa == Translate(m0, spaces[np].pgtbl, STACK_TOP - PGSIZE)
    requires var context := STACK_TOP - CONTEXT_SIZE;
             && Written(spaces, np, owner, trapframe + TRAPFRAME_A0, WordBytes(0, 8), n1, m0, m1)
             && (n1 < 8 ==> VByte(m1, spaces[np].pgtbl, trapframe + TRAPFRAME_A0 + n1) == None)
             && Written(spaces, np, owner, context + CONTEXT_SP, WordBytes(trapframe, 8), n2, m1, m2)
             && (n2 < 8 ==> VByte(m2, spaces[np].pgtbl, context + CONTEXT_SP + n2) == None)
             && Written(spaces, np, owner, context + CONTEXT_RA, WordBytes(helper, 8), n3, m2, m3)
             && (n3 < 8 ==> VByte(m3, spaces[np].pgtbl, context + CONTEXT_RA + n3) == None)
    ensures var context := STACK_TOP - CONTEXT_SIZE;
            var parent, child := spaces[p].pgtbl, spaces[np].pgtbl;
            && (forall a: nat :: VByte(m3, parent, a) == VByte(mem0, parent, a))
            && ForkedImage(m3, parent, child, trapframe, context)
            && ForkWords(m3, child, trapframe, context, helper,
                         MappedRange(mem0, parent, context, CONTEXT_SIZE),
                         MappedRange(mem0, parent, trapframe + TRAPFRAME_A0, 8))
            && (MappedRange(mem0, parent, context, CONTEXT_SIZE) ==>
                  PaToVa(pa + PGSIZE) == FrameOf(m3, child, Vpn(STACK_TOP - PGSIZE)) + PGSIZE)
  {
    hide Consistent;
    hide OnlyFramesOf;
    hide WroteVirtual;
    hide VByte;
    hide Translate;
    hide FrameOf;
    hide ForkedImage;
    hide ForkWords;
    hide WordBytes;
    hide Vpn;
    hide And;
    hide Or;
    var context := STACK_TOP - CONTEXT_SIZE;
    var parent, child := spaces[p].pgtbl, spaces[np].pgtbl;
    ForkWrites(spaces, p, np, owner, trapframe, context, helper, n1, n2, n3, m0, m1, m2, m3);
    assert MappedRange(mem0, parent, context, CONTEXT_SIZE) <==> MappedRange(m0, parent, context, CONTEXT_SIZE);
    assert MappedRange(mem0, parent, trapframe + TRAPFRAME_A0, 8) <==> MappedRange(m0, parent, trapframe + TRAPFRAME_A0, 8);
    SameFrames(np, m0, owner, spaces, m1, Vpn(STACK_TOP - PGSIZE));
    SameFrames(np, m1, owner, spaces, m2, Vpn(STACK_TOP - PGSIZE));
    SameFrames(np, m2, owner, spaces, m3, Vpn(STACK_TOP - PGSIZE));
    if MappedRange(mem0, parent, context, CONTEXT_SIZE) {
      assert MappedRange(m0, child, context, CONTEXT_SIZE);
      ForkContext(np, m0, owner, spaces, pa);
    }
  }

  /** What exec does is its own process's affair. */
  lemma ExecIsOwn(id: nat, got: seq<nat>, mem0: Memory, owner0: Owners, spaces0: Spaces, mem1: Memory, owner: Owners,
                  spaces: Spaces, mem: Memory)
    requires Consistent(mem0, owner0, spaces0)
    requires Granted(id, STACK_BOTTOM, got, USER_PERM, mem0, owner0, spaces0, mem1, owner, spaces)
    requires OnlyFramesOf(id, mem1, owner, mem)
    ensures OnlyOwn(id, mem0, owner0, mem, owner) && OthersKept(id, mem0, spaces0, mem)
    ensures id in spaces0 && id in spaces && spaces == spaces0[id := spaces[id]] && spaces[id].pgtbl == spaces0[id].pgtbl
  {
    hide Consistent;
    hide OnlyGrows;
    hide OnlyFramesOf;
    hide OnlyOwn;
    hide OthersKept;
    hide Listed;
    hide AllZero;
    GrowthIsOwn(id, mem0, owner0, mem1, owner);
    FramesAreOwn(id, mem1, owner, mem);
    OwnThenOwn(id, mem0, owner0, mem1, owner, mem, owner);
    AllOthersSee(id, mem0, owner0, spaces0, mem, owner);
  }

  /** What fork does is the child's. */
  lemma ForkIsOwn(np: nat, mem0: Memory, owner0: Owners, spaces0: Spaces, m0: Memory, owner: Owners, m1: Memory, m2: Memory,
                  m3: Memory, spaces: Spaces, n1: nat, n2: nat, n3: nat, a1: nat, a2: nat, a3: nat,
                  s1: seq<byte>, s2: seq<byte>, s3: seq<byte>)
    requires Consistent(mem0, owner0, spaces0) && OnlyGrows(np, mem0, owner0, m0, owner) && np in spaces
    requires Written(spaces, np, owner, a1, s1, n1, m0, m1) && Written(spaces, np, owner, a2, s2, n2, m1, m2)
    requires Written(spaces, np, owner, a3, s3, n3, m2, m3)
    ensures OnlyOwn(np, mem0, owner0, m3, owner) && OthersKept(np, mem0, spaces0, m3)
  {
    hide Consistent;
    hide OnlyGrows;
    hide OnlyFramesOf;
    hide OnlyOwn;
    hide OthersKept;
    hide WroteVirtual;
    hide VByte;
    GrowthIsOwn(np, mem0, owner0, m0, owner);
    FramesThenThen(np, owner, m0, m1, m2, m3);
    FramesAreOwn(np, m0, owner, m3);
    OwnThenOwn(np, mem0, owner0, m0, owner, m3, owner);
    AllOthersSee(np, mem0, owner0, spaces0, m3, owner);
  }
}
