/** The initial user stack: argc, argv, envp and the auxiliary vector, as a new program finds them. */
module InitialStack {
  import opened Memory
  import opened Chunks
  import opened Ranges

  type u64 = w: nat | w < 0x1_0000_0000_0000_0000

  const WORD: nat := 8
  const STACK_ALIGN: nat := 16
  const AT_NULL: u64 := 0

  // ----- words in memory, little-endian -----

  function EncodeBytes(v: nat, n: nat): (r: seq<byte>)
    ensures |r| == n
    decreases n
  {
    if n == 0 then [] else [v % 256] + EncodeBytes(v / 256, n - 1)
  }

  function DecodeBytes(b: seq<byte>): nat {
    if b == [] then 0 else (b[0] as nat) + 256 * DecodeBytes(b[1..])
  }

  function Power256(n: nat): nat { if n == 0 then 1 else 256 * Power256(n - 1) }

  lemma {:induction false} BytesRoundTrip(v: nat, n: nat)
    requires v < Power256(n)
    ensures DecodeBytes(EncodeBytes(v, n)) == v
    decreases n
  {
    if n > 0 {
      BytesRoundTrip(v / 256, n - 1);
      var e := EncodeBytes(v, n);
      assert e[1..] == EncodeBytes(v / 256, n - 1) && e[0] as nat == v % 256;
    }
  }

  function EncodeWord(w: u64): (r: seq<byte>)
    ensures |r| == WORD
  {
    EncodeBytes(w, WORD)
  }

  lemma WordRoundTrip(w: u64)
    ensures DecodeBytes(EncodeWord(w)) == w
  {
    assert Power256(WORD) == 0x1_0000_0000_0000_0000;
    BytesRoundTrip(w, WORD);
  }

  function EncodeWords(ws: seq<u64>): (r: seq<byte>)
    ensures |r| == WORD * |ws|
  {
    if ws == [] then [] else EncodeWord(ws[0]) + EncodeWords(ws[1..])
  }

  lemma {:induction false} WordsConcat(a: seq<u64>, b: seq<u64>)
    ensures EncodeWords(a + b) == EncodeWords(a) + EncodeWords(b)
  {
    if a == [] {
      assert a + b == b;
    } else {
      assert (a + b)[1..] == a[1..] + b;
      WordsConcat(a[1..], b);
    }
  }

  /** The word at byte offset `at`. */
  function WordAt(m: seq<byte>, at: nat): nat
    requires at + WORD <= |m|
  {
    DecodeBytes(m[at..at + WORD])
  }

  /** Words are little-endian. */
  lemma WordAtIs(m: seq<byte>, at: nat)
    requires at + 8 <= |m|
    ensures WordAt(m, at) ==
            m[at] as nat + 256 * (m[at + 1] as nat + 256 * (m[at + 2] as nat + 256 * (m[at + 3] as nat
                + 256 * (m[at + 4] as nat + 256 * (m[at + 5] as nat + 256 * (m[at + 6] as nat
                    + 256 * (m[at + 7] as nat)))))))
  {
    DecodeFrom(m, at, at + 8);
    DecodeFrom(m, at + 1, at + 8);
    DecodeFrom(m, at + 2, at + 8);
    DecodeFrom(m, at + 3, at + 8);
    DecodeFrom(m, at + 4, at + 8);
    DecodeFrom(m, at + 5, at + 8);
    DecodeFrom(m, at + 6, at + 8);
    DecodeFrom(m, at + 7, at + 8);
    assert m[at + 8..at + 8] == [];
  }

  lemma DecodeFrom(m: seq<byte>, at: nat, end: nat)
    requires at < end <= |m|
    ensures DecodeBytes(m[at..end]) == m[at] as nat + 256 * DecodeBytes(m[at + 1..end])
  {
    assert m[at..end][1..] == m[at + 1..end];
  }

  /** Words written one after the other are read back one by one. */
  lemma {:induction false} WordsRead(m: seq<byte>, at: nat, ws: seq<u64>, i: nat)
    requires at + WORD * |ws| <= |m| && m[at..at + WORD * |ws|] == EncodeWords(ws) && i < |ws|
    ensures WordAt(m, at + WORD * i) == ws[i]
    decreases i
  {
    hide EncodeWord, DecodeBytes;
    var e := m[at..at + WORD * |ws|];
    assert e == EncodeWord(ws[0]) + EncodeWords(ws[1..]);
    if i == 0 {
      assert m[at..at + WORD] == e[..WORD] == EncodeWord(ws[0]);
      WordRoundTrip(ws[0]);
    } else {
      assert m[at + WORD..at + WORD * |ws|] == e[WORD..] == EncodeWords(ws[1..]);
      WordsRead(m, at + WORD, ws[1..], i - 1);
    }
  }

  // ----- strings -----

  predicate NulFree(s: seq<byte>) { forall i :: 0 <= i < |s| ==> s[i] != 0 }

  /** The strings with their terminators, end to end. */
  function Strings(strs: seq<seq<byte>>): seq<byte> {
    if strs == [] then [] else strs[0] + [0] + Strings(strs[1..])
  }

  /** Where each string starts, if the first starts at `from`. */
  function Starts(strs: seq<seq<byte>>, from: nat): (r: seq<nat>)
    ensures |r| == |strs|
  {
    if strs == [] then [] else [from] + Starts(strs[1..], from + |strs[0]| + 1)
  }

  /** The string a reader finds at `at`: the bytes up to the first zero. */
  function CString(m: seq<byte>, at: nat): seq<byte>
    requires at <= |m|
    decreases |m| - at
  {
    if at == |m| || m[at] == 0 then [] else [m[at]] + CString(m, at + 1)
  }

  lemma {:induction false} CStringIs(m: seq<byte>, at: nat, s: seq<byte>)
    requires at + |s| < |m| && m[at..at + |s|] == s && m[at + |s|] == 0 && NulFree(s)
    ensures CString(m, at) == s
    decreases s
  {
    if s != [] {
      assert m[at] == m[at..at + |s|][0] == s[0];
      assert m[at + 1..at + 1 + |s[1..]|] == m[at..at + |s|][1..] == s[1..];
      CStringIs(m, at + 1, s[1..]);
    }
  }

  /** Every string is read back from where it starts. */
  lemma {:induction false} StringsRead(m: seq<byte>, from: nat, strs: seq<seq<byte>>, i: nat)
    requires from + |Strings(strs)| <= |m| && m[from..from + |Strings(strs)|] == Strings(strs)
    requires i < |strs| && forall k :: 0 <= k < |strs| ==> NulFree(strs[k])
    ensures Starts(strs, from)[i] < |m| && CString(m, Starts(strs, from)[i]) == strs[i]
    decreases i
  {
    var all, s := Strings(strs), strs[0];
    var region := m[from..from + |all|];
    var next := from + |s| + 1;
    if i == 0 {
      assert m[from..from + |s|] == region[..|s|] == s;
      assert m[from + |s|] == region[|s|] == 0;
      CStringIs(m, from, s);
    } else {
      assert m[next..from + |all|] == region[|s| + 1..] == Strings(strs[1..]);
      StringsRead(m, next, strs[1..], i - 1);
    }
  }

  // ----- building -----

  function RoundUp(n: nat): nat { (n + STACK_ALIGN - 1) / STACK_ALIGN * STACK_ALIGN }
  function RoundDown(n: nat): nat { n / STACK_ALIGN * STACK_ALIGN }

  function PointerWords(argv: seq<seq<byte>>, envp: seq<seq<byte>>, auxv: seq<(u64, u64)>): nat {
    1 + |argv| + 1 + |envp| + 1 + 2 * |auxv|
  }

  /** `initial_stack_size`. */
  function InitialStackSize(argv: seq<seq<byte>>, envp: seq<seq<byte>>, auxv: seq<(u64, u64)>): nat {
    RoundUp(WORD * PointerWords(argv, envp, auxv) + |Strings(argv)| + |Strings(envp)|)
  }

  /** Rounding the stack pointer down is rounding the size up. */
  lemma Rounding(top: nat, n: nat)
    requires top % STACK_ALIGN == 0
    ensures RoundUp(n) <= top <==> n <= top
    ensures n <= top ==> RoundDown(top - n) == top - RoundUp(n) && RoundUp(n) >= n
    ensures RoundUp(n) < n + 16 && RoundUp(n) % 16 == 0
  {
  }

  /** Byte offsets in the stack frame as user addresses. */
  predicate Addressable(size: nat) { USER_STACK_LOWER_BOUND + size < 0x1_0000_0000_0000_0000 }

  predicate Inside(offsets: seq<nat>, size: nat) { forall i :: 0 <= i < |offsets| ==> offsets[i] <= size }

  function ToVa(offsets: seq<nat>, size: nat): (r: seq<u64>)
    requires Addressable(size) && Inside(offsets, size)
    ensures |r| == |offsets| && forall i :: 0 <= i < |offsets| ==> r[i] == USER_STACK_LOWER_BOUND + offsets[i]
  {
    seq(|offsets|, i requires 0 <= i < |offsets| => USER_STACK_LOWER_BOUND + offsets[i])
  }

  function AuxWords(auxv: seq<(u64, u64)>): (r: seq<u64>)
    ensures |r| == 2 * |auxv|
  {
    if auxv == [] then [] else [auxv[0].0, auxv[0].1] + AuxWords(auxv[1..])
  }

  lemma {:induction false} StringsConcat(a: seq<seq<byte>>, b: seq<seq<byte>>)
    ensures Strings(a + b) == Strings(a) + Strings(b)
  {
    if a == [] {
      assert a + b == b;
    } else {
      assert (a + b)[1..] == a[1..] + b;
      StringsConcat(a[1..], b);
    }
  }

  lemma {:induction false} StartsInside(strs: seq<seq<byte>>, from: nat, i: nat)
    requires i < |strs|
    ensures from <= Starts(strs, from)[i] < from + |Strings(strs)|
    decreases strs
  {
    if i > 0 {
      StartsInside(strs[1..], from + |strs[0]| + 1, i - 1);
    }
  }

  /** Copy bytes into memory. */
  method Store(mem: array<byte>, at: nat, data: seq<byte>)
    requires at + |data| <= mem.Length
    modifies mem
    ensures mem[..] == Splice(old(mem[..]), at, data)
  {
    ghost var orig := mem[..];
    var i := 0;
    while i < |data|
      invariant i <= |data| && mem[..] == Splice(orig, at, data[..i])
    {
      mem[at + i] := data[i];
      assert data[..i + 1] == data[..i] + [data[i]];
      i := i + 1;
    }
    assert data[..i] == data;
  }

  /** A string and then, in front of it, what was written before. */
  lemma SpliceFront(m: seq<byte>, at: nat, a: seq<byte>, b: seq<byte>)
    requires at + |a| + |b| <= |m|
    ensures Splice(Splice(m, at + |a|, b), at, a) == Splice(m, at, a + b)
  {
    var l, r := Splice(Splice(m, at + |a|, b), at, a), Splice(m, at, a + b);
    forall i | 0 <= i < |m| ensures l[i] == r[i] {}
  }

  /** `push_cstr`: lower the stack pointer and write the string with its terminator there. */
  method PushCStr(mem: array<byte>, sp: nat, s: seq<byte>) returns (at: nat)
    requires |s| + 1 <= sp <= mem.Length
    modifies mem
    ensures at == sp - (|s| + 1) && mem[..] == Splice(old(mem[..]), at, s + [0])
  {
    ghost var orig := mem[..];
    at := sp - (|s| + 1);
    Store(mem, at, s);
    Store(mem, at + |s|, [0]);
    SpliceSplice(orig, at, s, [0]);
  }

  /** Push strings from the last to the first. */
  method PushStrings(mem: array<byte>, top: nat, strs: seq<seq<byte>>) returns (sp: nat, offsets: seq<nat>)
    requires |Strings(strs)| <= top <= mem.Length
    modifies mem
    ensures sp == top - |Strings(strs)| && mem[..] == Splice(old(mem[..]), sp, Strings(strs))
              && offsets == Starts(strs, sp)
  {
    ghost var orig := mem[..];
    sp, offsets := top, [];
    var i := |strs|;
    assert strs[i..] == [] && Splice(orig, top, []) == orig;
    while i > 0
      invariant 0 <= i <= |strs| && sp == top - |Strings(strs[i..])| && |Strings(strs[i..])| <= |Strings(strs)|
      invariant mem[..] == Splice(orig, sp, Strings(strs[i..])) && offsets == Starts(strs[i..], sp)
    {
      i := i - 1;
      assert strs[i..][0] == strs[i] && strs[i..][1..] == strs[i + 1..];
      StringsConcat(strs[..i], strs[i..]);
      assert strs[..i] + strs[i..] == strs;
      ghost var before := Strings(strs[i + 1..]);
      var at := PushCStr(mem, sp, strs[i]);
      SpliceFront(orig, at, strs[i] + [0], before);
      sp := at;
      offsets := [at] + offsets;
    }
    assert strs[i..] == strs;
  }

  /** More words after words already written. */
  lemma WordsMore(orig: seq<byte>, m: seq<byte>, at: nat, a: seq<u64>, b: seq<u64>)
    requires at + WORD * (|a| + |b|) <= |orig| && m == Splice(orig, at, EncodeWords(a))
    ensures Splice(m, at + WORD * |a|, EncodeWords(b)) == Splice(orig, at, EncodeWords(a + b))
  {
    hide EncodeWords, Splice;
    WordsConcat(a, b);
    SpliceSplice(orig, at, EncodeWords(a), EncodeWords(b));
  }

  lemma NoWords(m: seq<byte>, at: nat)
    requires at <= |m|
    ensures |EncodeWords([])| == 0 && Splice(m, at, EncodeWords([])) == m
  {
  }

  lemma OneWord(w: u64)
    ensures EncodeWords([w]) == EncodeWord(w) && EncodeWords([]) == []
  {
    assert [w][1..] == [];
    assert EncodeWords([w]) == EncodeWord(w) + EncodeWords([]);
  }

  /** Write words one after the other. */
  method StoreWords(mem: array<byte>, at: nat, ws: seq<u64>) returns (next: nat)
    requires at + WORD * |ws| <= mem.Length
    modifies mem
    ensures next == at + WORD * |ws| && mem[..] == Splice(old(mem[..]), at, EncodeWords(ws))
  {
    hide EncodeWords, EncodeWord, Splice;
    ghost var orig := mem[..];
    next := at;
    var i := 0;
    assert ws[..0] == [];
    NoWords(orig, at);
    while i < |ws|
      invariant i <= |ws| && next == at + WORD * i && mem[..] == Splice(orig, at, EncodeWords(ws[..i]))
    {
      ghost var m := mem[..];
      Store(mem, next, EncodeWord(ws[i]));
      OneWord(ws[i]);
      WordsMore(orig, m, at, ws[..i], [ws[i]]);
      assert ws[..i + 1] == ws[..i] + [ws[i]];
      next := next + WORD;
      i := i + 1;
    }
    assert ws[..i] == ws;
  }

  /** The words at the stack pointer. */
  function PointerTable(argvVas: seq<u64>, envpVas: seq<u64>, auxv: seq<(u64, u64)>): seq<u64>
    requires |argvVas| < 0x1_0000_0000_0000_0000
  {
    [|argvVas|] + argvVas + [0] + envpVas + [0] + AuxWords(auxv)
  }

  /** A stack image: the pointer table at `sp`, strings at the top, everything else as in `orig`. */
  ghost predicate Image(m: seq<byte>, orig: seq<byte>, sp: nat, argv: seq<seq<byte>>, envp: seq<seq<byte>>,
      auxv: seq<(u64, u64)>) {
    && |m| == |orig| && Addressable(|m|) && |Strings(argv)| + |Strings(envp)| <= |m|
    && (var envStart := |m| - |Strings(envp)|;
        var argStart := envStart - |Strings(argv)|;
        && Inside(Starts(argv, argStart), |m|) && Inside(Starts(envp, envStart), |m|)
        && |argv| < 0x1_0000_0000_0000_0000
        && (var table := EncodeWords(PointerTable(ToVa(Starts(argv, argStart), |m|), ToVa(Starts(envp, envStart), |m|),
             auxv));
            && sp + |table| <= argStart
            && m == Splice(Splice(Splice(orig, envStart, Strings(envp)), argStart, Strings(argv)), sp, table)))
  }

  /** Write the pointer table part by part. */
  method StoreTable(mem: array<byte>, sp: nat, argvVas: seq<u64>, envpVas: seq<u64>, auxv: seq<(u64, u64)>)
    requires |argvVas| < 0x1_0000_0000_0000_0000
    requires sp + WORD * |PointerTable(argvVas, envpVas, auxv)| <= mem.Length
    modifies mem
    ensures mem[..] == Splice(old(mem[..]), sp, EncodeWords(PointerTable(argvVas, envpVas, auxv)))
  {
    hide EncodeWords, Splice, AuxWords;
    ghost var orig := mem[..];
    ghost var table := [];
    NoWords(orig, sp);
    var argc := [|argvVas|];
    var w := Append(mem, sp, argc, orig, sp, table);
    table := table + argc;
    w := Append(mem, w, argvVas, orig, sp, table);
    table := table + argvVas;
    w := Append(mem, w, [0], orig, sp, table);
    table := table + [0];
    w := Append(mem, w, envpVas, orig, sp, table);
    table := table + envpVas;
    w := Append(mem, w, [0], orig, sp, table);
    table := table + [0];
    w := Append(mem, w, AuxWords(auxv), orig, sp, table);
    assert table + AuxWords(auxv) == PointerTable(argvVas, envpVas, auxv);
  }

  /** Write words behind those written since `sp`. */
  method Append(mem: array<byte>, at: nat, ws: seq<u64>, ghost orig: seq<byte>, ghost sp: nat, ghost table: seq<u64>)
      returns (next: nat)
    requires |orig| == mem.Length && at == sp + WORD * |table| && at + WORD * |ws| <= mem.Length
    requires mem[..] == Splice(orig, sp, EncodeWords(table))
    modifies mem
    ensures next == at + WORD * |ws| && mem[..] == Splice(orig, sp, EncodeWords(table + ws))
  {
    hide EncodeWords, Splice;
    ghost var m := mem[..];
    next := StoreWords(mem, at, ws);
    WordsMore(orig, m, sp, table, ws);
  }

  /** `build_initial_stack`: the stack pointer as a user address, or None if the arguments do not fit. */
  method BuildInitialStack(argv: seq<seq<byte>>, envp: seq<seq<byte>>, auxv: seq<(u64, u64)>, mem: array<byte>)
      returns (r: Option<nat>)
    requires mem.Length % STACK_ALIGN == 0 && Addressable(mem.Length)
    modifies mem
    ensures r.None? <==> InitialStackSize(argv, envp, auxv) > mem.Length
    ensures r.None? ==> mem[..] == old(mem[..])
    ensures r.Some? ==>
              && r.value == USER_STACK_LOWER_BOUND + mem.Length - InitialStackSize(argv, envp, auxv)
              && r.value % STACK_ALIGN == 0
              && Image(mem[..], old(mem[..]), r.value - USER_STACK_LOWER_BOUND, argv, envp, auxv)
    ensures var bytes := 8 * (1 + |argv| + 1 + |envp| + 1 + 2 * |auxv|) + |Strings(argv)| + |Strings(envp)|;
            && (r.None? <==> bytes > mem.Length)
            && (r.Some? ==>
                 r.value + bytes <= USER_STACK_LOWER_BOUND + mem.Length < r.value + bytes + 16 && r.value % 16 == 0)
  {
    hide Strings, Starts, EncodeWords, RoundUp, RoundDown, PointerTable, Splice, ToVa, Inside;
    var required := InitialStackSize(argv, envp, auxv);
    Rounding(mem.Length, WORD * PointerWords(argv, envp, auxv) + |Strings(argv)| + |Strings(envp)|);
    if required > mem.Length {
      return None;
    }
    var sp, envOffsets := PushStrings(mem, mem.Length, envp);
    var argOffsets;
    sp, argOffsets := PushStrings(mem, sp, argv);
    OffsetsInside(argv, envp, mem.Length);
    var argvVas, envpVas := ToVa(argOffsets, mem.Length), ToVa(envOffsets, mem.Length);
    TableSize(argvVas, envpVas, auxv);
    sp := RoundDown(sp - WORD * PointerWords(argv, envp, auxv));
    StoreTable(mem, sp, argvVas, envpVas, auxv);
    AlignedSp(mem.Length, required, WORD * PointerWords(argv, envp, auxv) + |Strings(argv)| + |Strings(envp)|);
    r := Some(USER_STACK_LOWER_BOUND + sp);
  }

  lemma AllStartsInside(strs: seq<seq<byte>>, from: nat, size: nat)
    requires from + |Strings(strs)| <= size
    ensures Inside(Starts(strs, from), size)
  {
    hide Starts;
    var starts := Starts(strs, from);
    forall i | 0 <= i < |starts| ensures starts[i] <= size {
      StartsInside(strs, from, i);
    }
  }

  lemma OffsetsInside(argv: seq<seq<byte>>, envp: seq<seq<byte>>, size: nat)
    requires |Strings(argv)| + |Strings(envp)| <= size
    ensures Inside(Starts(argv, size - |Strings(envp)| - |Strings(argv)|), size)
              && Inside(Starts(envp, size - |Strings(envp)|), size)
    ensures |argv| <= size
  {
    AllStartsInside(argv, size - |Strings(envp)| - |Strings(argv)|, size);
    AllStartsInside(envp, size - |Strings(envp)|, size);
    EnoughBytes(argv);
  }

  lemma {:induction false} EnoughBytes(strs: seq<seq<byte>>)
    ensures |strs| <= |Strings(strs)|
  {
    if strs != [] {
      EnoughBytes(strs[1..]);
    }
  }

  lemma TableSize(argvVas: seq<u64>, envpVas: seq<u64>, auxv: seq<(u64, u64)>)
    requires |argvVas| < 0x1_0000_0000_0000_0000
    ensures |PointerTable(argvVas, envpVas, auxv)| == 1 + |argvVas| + 1 + |envpVas| + 1 + 2 * |auxv|
  {
  }

  lemma AlignedSp(size: nat, required: nat, n: nat)
    requires size % STACK_ALIGN == 0 && required == RoundUp(n) && required <= size
    ensures (USER_STACK_LOWER_BOUND + (size - required)) % STACK_ALIGN == 0
  {
  }

  // ----- reading -----

  /** The string behind a pointer. */
  function StringAt(m: seq<byte>, p: nat): seq<byte> {
    if USER_STACK_LOWER_BOUND <= p <= USER_STACK_LOWER_BOUND + |m| then CString(m, p - USER_STACK_LOWER_BOUND) else []
  }

  /** `n` strings, whose pointers start at `at`. */
  function ArgsAt(m: seq<byte>, at: nat, n: nat): seq<seq<byte>>
    decreases n
  {
    if n == 0 || at + WORD > |m| then [] else [StringAt(m, WordAt(m, at))] + ArgsAt(m, at + WORD, n - 1)
  }

  /** Strings up to a null pointer. */
  function EnvAt(m: seq<byte>, at: nat): seq<seq<byte>>
    decreases |m| - at
  {
    if at + WORD > |m| || WordAt(m, at) == 0 then [] else [StringAt(m, WordAt(m, at))] + EnvAt(m, at + WORD)
  }

  /** Pairs of words up to and including one of type AT_NULL. */
  function AuxAt(m: seq<byte>, at: nat): seq<(nat, nat)>
    decreases |m| - at
  {
    if at + 2 * WORD > |m| then []
    else
      var p := (WordAt(m, at), WordAt(m, at + WORD));
      [p] + if p.0 == AT_NULL then [] else AuxAt(m, at + 2 * WORD)
  }

  datatype Found = Found(argc: nat, argv: seq<seq<byte>>, envp: seq<seq<byte>>, auxv: seq<(nat, nat)>)

  /** What `_start` hands to the program: argc at sp, argv behind it, envp behind argv's null, auxv behind envp's. */
  function ReadStart(m: seq<byte>, sp: nat): Found
    requires sp + WORD <= |m|
  {
    var argc := WordAt(m, sp);
    var argv := sp + WORD;
    var envp := argv + WORD * argc + WORD;
    var env := EnvAt(m, envp);
    Found(argc, ArgsAt(m, argv, argc), env, AuxAt(m, envp + WORD * |env| + WORD))
  }

  /** Exactly the last entry has type AT_NULL. */
  ghost predicate Terminated(auxv: seq<(u64, u64)>) {
    auxv != [] && auxv[|auxv| - 1].0 == AT_NULL && forall i :: 0 <= i < |auxv| - 1 ==> auxv[i].0 != AT_NULL
  }

  /** The table at `at` holds these words. */
  ghost predicate Words(m: seq<byte>, at: nat, ws: seq<u64>) {
    at + WORD * |ws| <= |m| && forall i :: 0 <= i < |ws| ==> WordAt(m, at + WORD * i) == ws[i]
  }

  lemma WordsTail(m: seq<byte>, at: nat, ws: seq<u64>)
    requires Words(m, at, ws) && ws != []
    ensures WordAt(m, at) == ws[0] && Words(m, at + WORD, ws[1..])
  {
    assert WordAt(m, at + WORD * 0) == ws[0];
    forall i | 0 <= i < |ws| - 1 ensures WordAt(m, at + WORD + WORD * i) == ws[1..][i] {
      assert WordAt(m, at + WORD * (i + 1)) == ws[i + 1];
    }
  }

  lemma {:induction false} WordsAfter(m: seq<byte>, at: nat, a: seq<u64>, b: seq<u64>)
    requires Words(m, at, a + b)
    ensures Words(m, at, a) && Words(m, at + WORD * |a|, b)
  {
    forall i | 0 <= i < |a| ensures WordAt(m, at + WORD * i) == a[i] {
      assert (a + b)[i] == a[i];
    }
    forall i | 0 <= i < |b| ensures WordAt(m, at + WORD * |a| + WORD * i) == b[i] {
      assert (a + b)[|a| + i] == b[i];
      assert at + WORD * (|a| + i) == at + WORD * |a| + WORD * i;
    }
  }

  lemma {:induction false} ArgsRead(m: seq<byte>, at: nat, vas: seq<u64>, strs: seq<seq<byte>>)
    requires |vas| == |strs| && Words(m, at, vas) && forall i :: 0 <= i < |vas| ==> StringAt(m, vas[i]) == strs[i]
    ensures ArgsAt(m, at, |vas|) == strs
    decreases vas
  {
    if vas != [] {
      WordsTail(m, at, vas);
      ArgsRead(m, at + WORD, vas[1..], strs[1..]);
    }
  }

  lemma {:induction false} EnvRead(m: seq<byte>, at: nat, vas: seq<u64>, strs: seq<seq<byte>>)
    requires |vas| == |strs| && Words(m, at, vas + [0]) && forall i :: 0 <= i < |vas| ==>
              vas[i] != 0 && StringAt(m, vas[i]) == strs[i]
    ensures EnvAt(m, at) == strs
    decreases vas
  {
    WordsTail(m, at, vas + [0]);
    if vas != [] {
      assert (vas + [0])[1..] == vas[1..] + [0] && (vas + [0])[0] == vas[0];
      EnvRead(m, at + WORD, vas[1..], strs[1..]);
    }
  }

  lemma {:induction false} AuxRead(m: seq<byte>, at: nat, auxv: seq<(u64, u64)>)
    requires Words(m, at, AuxWords(auxv)) && Terminated(auxv)
    ensures |AuxAt(m, at)| == |auxv| && forall i :: 0 <= i < |auxv| ==>
              AuxAt(m, at)[i] == (auxv[i].0 as nat, auxv[i].1 as nat)
    decreases auxv
  {
    var ws := AuxWords(auxv);
    WordsTail(m, at, ws);
    WordsTail(m, at + WORD, ws[1..]);
    assert ws[1..][1..] == AuxWords(auxv[1..]);
    if auxv[0].0 != AT_NULL {
      AuxRead(m, at + 2 * WORD, auxv[1..]);
    } else {
      assert |auxv| == 1;
    }
  }

  /** What was written is there, and what lies elsewhere is as before. */
  lemma SpliceReads(m: seq<byte>, at: nat, data: seq<byte>, lo: nat, hi: nat)
    requires at + |data| <= |m| && lo <= hi <= |m| && (hi <= at || at + |data| <= lo)
    ensures Splice(m, at, data)[at..at + |data|] == data && Splice(m, at, data)[lo..hi] == m[lo..hi]
  {
  }

  /** The table and the strings as they stand in an image. */
  lemma ImageParts(m: seq<byte>, orig: seq<byte>, sp: nat, argv: seq<seq<byte>>, envp: seq<seq<byte>>,
      auxv: seq<(u64, u64)>)
    requires Image(m, orig, sp, argv, envp, auxv)
    ensures var envStart := |m| - |Strings(envp)|;
            var argStart := envStart - |Strings(argv)|;
            && m[envStart..envStart + |Strings(envp)|] == Strings(envp)
            && m[argStart..argStart + |Strings(argv)|] == Strings(argv)
            && Words(m, sp, PointerTable(ToVa(Starts(argv, argStart), |m|), ToVa(Starts(envp, envStart), |m|), auxv))
  {
    hide Strings, Starts, EncodeWords, PointerTable, Splice;
    var envStart := |m| - |Strings(envp)|;
    var argStart := envStart - |Strings(argv)|;
    var ws := PointerTable(ToVa(Starts(argv, argStart), |m|), ToVa(Starts(envp, envStart), |m|), auxv);
    var table := EncodeWords(ws);
    var withEnv := Splice(orig, envStart, Strings(envp));
    var withArgs := Splice(withEnv, argStart, Strings(argv));
    SpliceReads(orig, envStart, Strings(envp), argStart, argStart);
    SpliceReads(withEnv, argStart, Strings(argv), envStart, |m|);
    SpliceReads(withArgs, sp, table, envStart, |m|);
    SpliceReads(withArgs, sp, table, argStart, envStart);
    forall i | 0 <= i < |ws| ensures WordAt(m, sp + WORD * i) == ws[i] {
      WordsRead(m, sp, ws, i);
    }
  }

  lemma StringsFound(m: seq<byte>, from: nat, strs: seq<seq<byte>>)
    requires Addressable(|m|) && from + |Strings(strs)| <= |m| && m[from..from + |Strings(strs)|] == Strings(strs)
    requires (forall k :: 0 <= k < |strs| ==> NulFree(strs[k])) && Inside(Starts(strs, from), |m|)
    ensures forall i :: 0 <= i < |strs| ==>
              ToVa(Starts(strs, from), |m|)[i] != 0 && StringAt(m, ToVa(Starts(strs, from), |m|)[i]) == strs[i]
  {
    hide Strings, Starts, CString;
    forall i | 0 <= i < |strs| ensures StringAt(m, ToVa(Starts(strs, from), |m|)[i]) == strs[i] {
      StringsRead(m, from, strs, i);
    }
  }

  /** A program started on the stack finds exactly what was put there. */
  lemma StartReadsAll(m: seq<byte>, orig: seq<byte>, sp: nat, argv: seq<seq<byte>>, envp: seq<seq<byte>>,
      auxv: seq<(u64, u64)>)
    requires Image(m, orig, sp, argv, envp, auxv) && Terminated(auxv)
    requires (forall k :: 0 <= k < |argv| ==> NulFree(argv[k])) && (forall k :: 0 <= k < |envp| ==> NulFree(envp[k]))
    ensures sp + WORD <= |m|
    ensures var f := ReadStart(m, sp);
            && f.argc == |argv| && f.argv == argv && f.envp == envp && |f.auxv| == |auxv|
            && forall i :: 0 <= i < |auxv| ==> f.auxv[i] == (auxv[i].0 as nat, auxv[i].1 as nat)
  {
    hide Strings, Starts, EncodeWords, ArgsAt, EnvAt, AuxAt, StringAt, WordAt, AuxWords;
    var envStart := |m| - |Strings(envp)|;
    var argStart := envStart - |Strings(argv)|;
    ImageParts(m, orig, sp, argv, envp, auxv);
    StringsFound(m, argStart, argv);
    StringsFound(m, envStart, envp);
    var a, e := ToVa(Starts(argv, argStart), |m|), ToVa(Starts(envp, envStart), |m|);
    TableParts(m, sp, a, e, auxv);
    ArgsRead(m, sp + WORD, a, argv);
    EnvRead(m, sp + WORD + WORD * |a| + WORD, e, envp);
    AuxRead(m, sp + WORD + WORD * |a| + WORD + WORD * |e| + WORD, auxv);
  }

  lemma TableParts(m: seq<byte>, sp: nat, a: seq<u64>, e: seq<u64>, auxv: seq<(u64, u64)>)
    requires |a| < 0x1_0000_0000_0000_0000 && Words(m, sp, PointerTable(a, e, auxv))
    ensures sp + WORD <= |m| && WordAt(m, sp) == |a| && Words(m, sp + WORD, a)
              && Words(m, sp + WORD + WORD * |a| + WORD, e + [0])
    ensures Words(m, sp + WORD + WORD * |a| + WORD + WORD * |e| + WORD, AuxWords(auxv))
  {
    hide WordAt, AuxWords;
    var x := AuxWords(auxv);
    var rest := a + ([0] + ((e + [0]) + x));
    assert PointerTable(a, e, auxv) == [|a|] + rest;
    WordsAfter(m, sp, [|a|], rest);
    WordsAfter(m, sp + WORD, a, [0] + ((e + [0]) + x));
    WordsAfter(m, sp + WORD + WORD * |a|, [0], (e + [0]) + x);
    WordsAfter(m, sp + WORD + WORD * |a| + WORD, e + [0], x);
    WordsTail(m, sp, [|a|]);
  }
}
