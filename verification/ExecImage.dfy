/** The image of arguments and environment that `execve` puts at the top of the new user
    stack, and the start-up code that reads it back. */
module ExecImage {
  import opened Basics

  const BUFFER := 16384
  const VECTOR_WORDS := 1024

  type Bytes = seq<byte>

  ghost predicate IsString(s: Bytes) { forall i :: 0 <= i < |s| ==> s[i] != 0 }

  ghost predicate AreStrings(ss: seq<Bytes>) { forall k :: 0 <= k < |ss| ==> IsString(ss[k]) }

  // ---------------------------------------------------------------- words

  /** A word in memory, low byte first. */
  function Encode(w: nat): (b: Bytes)
    requires w < WORD
    ensures |b| == 4
  {
    var h := w / 256;
    var hh := h / 256;
    [(w % 256) as byte, (h % 256) as byte, (hh % 256) as byte, (hh / 256) as byte]
  }

  function Decode(m: Bytes, at: nat): nat
    requires at + 4 <= |m|
  {
    m[at] as nat + 256 * (m[at + 1] as nat + 256 * (m[at + 2] as nat + 256 * (m[at + 3] as nat)))
  }

  lemma DecodeEncode(m: Bytes, at: nat, w: nat)
    requires at + 4 <= |m| && w < WORD && m[at..at + 4] == Encode(w)
    ensures Decode(m, at) == w
  {
    assert m[at] == m[at..at + 4][0] && m[at + 1] == m[at..at + 4][1];
    assert m[at + 2] == m[at..at + 4][2] && m[at + 3] == m[at..at + 4][3];
  }

  function Words(ws: seq<nat>): (b: Bytes)
    requires forall i :: 0 <= i < |ws| ==> ws[i] < WORD
    ensures |b| == 4 * |ws|
  {
    if ws == [] then [] else Encode(ws[0]) + Words(ws[1..])
  }

  lemma {:induction false} WordsAt(ws: seq<nat>, i: nat)
    requires i < |ws| && forall j :: 0 <= j < |ws| ==> ws[j] < WORD
    ensures Words(ws)[4 * i..4 * i + 4] == Encode(ws[i])
  {
    if i > 0 {
      WordsAt(ws[1..], i - 1);
      assert Words(ws)[4..] == Words(ws[1..]);
      assert Words(ws)[4..][4 * (i - 1)..4 * (i - 1) + 4] == Words(ws)[4 * i..4 * i + 4];
    }
  }

  // -------------------------------------------------------------- strings

  /** Strings one after the other, each with its end mark. */
  function Blob(ss: seq<Bytes>): Bytes {
    if ss == [] then [] else ss[0] + [0 as byte] + Blob(ss[1..])
  }

  lemma {:induction false} BlobSplit(ss: seq<Bytes>, k: nat)
    requires k <= |ss|
    ensures |Blob(ss[k..])| <= |Blob(ss)| && Blob(ss)[|Blob(ss)| - |Blob(ss[k..])|..] == Blob(ss[k..])
  {
    if k == 0 {
      assert ss[0..] == ss;
    } else {
      BlobSplit(ss[1..], k - 1);
      assert ss[1..][k - 1..] == ss[k..];
      var b, t := Blob(ss), Blob(ss[k..]);
      assert b == (ss[0] + [0 as byte]) + Blob(ss[1..]);
      assert b[|b| - |t|..] == Blob(ss[1..])[|Blob(ss[1..])| - |t|..];
    }
  }

  /** The address of string `k`, with all strings just below the top of the stack. */
  function Address(ss: seq<Bytes>, k: nat): int
    requires k <= |ss|
  {
    USER_STACK_TOP - |Blob(ss[k..])|
  }

  /** What a C program finds at a string pointer. */
  function StringAt(m: Bytes, at: nat): Bytes
    requires at <= |m|
    decreases |m| - at
  {
    if at == |m| || m[at] == 0 then [] else [m[at]] + StringAt(m, at + 1)
  }

  lemma {:induction false} StringAtIs(m: Bytes, at: nat, s: Bytes)
    requires at + |s| < |m| && m[at..at + |s|] == s && m[at + |s|] == 0 && IsString(s)
    ensures StringAt(m, at) == s
    decreases |s|
  {
    if s != [] {
      assert m[at] == m[at..at + |s|][0] == s[0];
      assert m[at + 1..at + 1 + |s[1..]|] == m[at..at + |s|][1..] == s[1..];
      StringAtIs(m, at + 1, s[1..]);
      assert s == [s[0]] + s[1..];
    }
  }

  // ---------------------------------------------------------------- image

  /** All strings of the image, in the order of their addresses. */
  function Strings(file: Bytes, argv: seq<Bytes>, envp: seq<Bytes>): seq<Bytes> { [file] + argv + envp }

  /** The count, the argument pointers and NULL, the environment pointers and NULL. */
  function Header(file: Bytes, argv: seq<Bytes>, envp: seq<Bytes>): (ws: seq<int>)
    ensures |ws| == |argv| + |envp| + 4
  {
    var ss := Strings(file, argv, envp);
    [|argv| + 1] + seq(|argv| + 1, (i: nat) requires i <= |argv| => Address(ss, i)) + [0]
    + seq(|envp|, (i: nat) requires i < |envp| => Address(ss, |argv| + 1 + i)) + [0]
  }

  /** The image is smaller than the kernel's buffer, and both vectors fit in a page. */
  ghost predicate Fits(file: Bytes, argv: seq<Bytes>, envp: seq<Bytes>) {
    && 4 * (|argv| + |envp| + 4) + |Blob(Strings(file, argv, envp))| < BUFFER
    && |argv| + |envp| + 3 <= VECTOR_WORDS
  }

  lemma HeaderWord(file: Bytes, argv: seq<Bytes>, envp: seq<Bytes>, i: nat)
    requires i < |argv| + |envp| + 4
    ensures Header(file, argv, envp)[i] ==
              if i == 0 then |argv| + 1
              else if i <= |argv| + 1 then Address(Strings(file, argv, envp), i - 1)
              else if i == |argv| + 2 || i == |argv| + |envp| + 3 then 0
              else Address(Strings(file, argv, envp), i - 2)
  {}

  lemma HeaderInRange(file: Bytes, argv: seq<Bytes>, envp: seq<Bytes>)
    requires Fits(file, argv, envp)
    ensures var h := Header(file, argv, envp); forall i :: 0 <= i < |h| ==> 0 <= h[i] < WORD
  {
    var ss, h := Strings(file, argv, envp), Header(file, argv, envp);
    hide Header;
    forall i: nat | i < |h| ensures 0 <= h[i] < WORD {
      HeaderWord(file, argv, envp, i);
      if 0 < i <= |argv| + 1 {
        BlobSplit(ss, i - 1);
      } else if |argv| + 2 < i < |h| - 1 {
        BlobSplit(ss, i - 2);
      }
    }
  }

  function AsWords(h: seq<int>): (ws: seq<nat>)
    requires forall i :: 0 <= i < |h| ==> 0 <= h[i]
    ensures |ws| == |h| && forall i :: 0 <= i < |h| ==> ws[i] == h[i]
  {
    seq(|h|, i requires 0 <= i < |h| => h[i])
  }

  ghost function Image(file: Bytes, argv: seq<Bytes>, envp: seq<Bytes>): Bytes
    requires Fits(file, argv, envp)
  {
    HeaderInRange(file, argv, envp);
    Words(AsWords(Header(file, argv, envp))) + Blob(Strings(file, argv, envp))
  }

  // ------------------------------------------------------------ start-up code

  /** What `_start` and `__libc_start_main` hand to `main`: memory `m` ends at the top of the
      stack, and the stack pointer is at its start. */
  datatype Startup = Startup(argc: nat, argv: nat, envp: nat)

  function Start(m: Bytes): Startup
    requires 4 <= |m| <= USER_STACK_TOP
  {
    var argc := Decode(m, 0);
    var argv := USER_STACK_TOP - |m| + 4;
    Startup(argc, argv, argv + 4 * (argc + 1))
  }

  /** The strings of the vector at `at`, up to its NULL; None where a pointer leaves the image. */
  datatype Vector = Bad | Good(strings: seq<Bytes>)

  function ReadVector(m: Bytes, at: int): Vector
    requires |m| <= USER_STACK_TOP
    decreases USER_STACK_TOP - at
  {
    var base := USER_STACK_TOP - |m|;
    if at < base || at + 4 > USER_STACK_TOP then Bad
    else
      var p := Decode(m, at - base);
      if p == 0 then Good([])
      else if p < base || p >= USER_STACK_TOP then Bad
      else match ReadVector(m, at + 4)
        case Bad => Bad
        case Good(rest) => Good([StringAt(m, p - base)] + rest)
  }

  // --------------------------------------------------------------- read back

  /** String `k` is at its address, with its end mark, inside the image. */
  lemma StringInImage(head: Bytes, ss: seq<Bytes>, k: nat)
    requires k < |ss| && AreStrings(ss) && |head + Blob(ss)| <= USER_STACK_TOP
    ensures var m := head + Blob(ss); var base := USER_STACK_TOP - |m|;
            && base + |head| <= Address(ss, k) && Address(ss, k) + |ss[k]| + 1 == Address(ss, k + 1) <= USER_STACK_TOP
            && StringAt(m, Address(ss, k) - base) == ss[k]
  {
    var m := head + Blob(ss);
    var b := Blob(ss[k..]);
    BlobSplit(ss, k);
    assert ss[k..][1..] == ss[k + 1..];
    assert b == ss[k] + [0 as byte] + Blob(ss[k + 1..]);
    var at := |m| - |b|;
    assert m[at..] == Blob(ss)[|Blob(ss)| - |b|..] == b;
    assert m[at..at + |ss[k]|] == m[at..][..|ss[k]|] == ss[k];
    assert m[at + |ss[k]|] == m[at..][|ss[k]|] == 0;
    StringAtIs(m, at, ss[k]);
  }

  /** Word `i` of the header can be read at its place. */
  lemma HeaderAt(file: Bytes, argv: seq<Bytes>, envp: seq<Bytes>, i: nat)
    requires Fits(file, argv, envp) && i < |argv| + |envp| + 4
    ensures 4 * i + 4 <= |Image(file, argv, envp)| < BUFFER
    ensures Decode(Image(file, argv, envp), 4 * i) == Header(file, argv, envp)[i]
  {
    HeaderInRange(file, argv, envp);
    var h := Header(file, argv, envp);
    var ws := AsWords(h);
    WordsAt(ws, i);
    var m := Image(file, argv, envp);
    assert m[4 * i..4 * i + 4] == Words(ws)[4 * i..4 * i + 4];
    DecodeEncode(m, 4 * i, ws[i]);
  }

  /** The words `h` are at the start of `m`, and the strings `ss` at their addresses. */
  ghost predicate Laid(m: Bytes, h: seq<int>, ss: seq<Bytes>) {
    && 4 * |h| <= |m| <= USER_STACK_TOP && (forall i: nat :: i < |h| ==> Decode(m, 4 * i) == h[i])
    && forall k: nat :: k < |ss| ==> FoundAt(m, Address(ss, k), ss[k])
  }

  predicate FoundAt(m: Bytes, p: int, s: Bytes)
    requires |m| <= USER_STACK_TOP
  {
    0 < USER_STACK_TOP - |m| <= p < USER_STACK_TOP && StringAt(m, p - (USER_STACK_TOP - |m|)) == s
  }

  lemma ImageIsLaid(file: Bytes, argv: seq<Bytes>, envp: seq<Bytes>)
    requires Fits(file, argv, envp) && AreStrings(Strings(file, argv, envp))
    ensures Laid(Image(file, argv, envp), Header(file, argv, envp), Strings(file, argv, envp)) && |Image(file, argv, envp)| < BUFFER
  {
    var m, h, ss := Image(file, argv, envp), Header(file, argv, envp), Strings(file, argv, envp);
    HeaderInRange(file, argv, envp);
    var head := Words(AsWords(h));
    assert m == head + Blob(ss);
    hide Header, Strings, Words, Blob, AsWords, Image;
    forall i: nat | i < |h| ensures Decode(m, 4 * i) == h[i] {
      HeaderAt(file, argv, envp, i);
    }
    forall k: nat | k < |ss| ensures FoundAt(m, Address(ss, k), ss[k]) {
      StringInImage(head, ss, k);
    }
  }

  /** From word `i` on there are pointers to the `n` strings from `k` on, then NULL: the vector
      reads back as those strings. */
  ghost predicate Points(h: seq<int>, ss: seq<Bytes>, i: nat, n: nat, k: nat) {
    i + n < |h| && k + n <= |ss| && h[i + n] == 0 && forall x: nat :: i <= x < i + n ==> h[x] == Address(ss, k + x - i)
  }

  lemma {:induction false} VectorReadsBack(m: Bytes, h: seq<int>, ss: seq<Bytes>, i: nat, n: nat, k: nat)
    requires Laid(m, h, ss) && Points(h, ss, i, n, k)
    ensures ReadVector(m, USER_STACK_TOP - |m| + 4 * i) == Good(ss[k..k + n])
    decreases n
  {
    hide Address, StringAt, Decode;
    if n > 0 {
      assert FoundAt(m, Address(ss, k), ss[k]);
      VectorReadsBack(m, h, ss, i + 1, n - 1, k + 1);
      assert ss[k..k + n] == [ss[k]] + ss[k + 1..k + n];
    } else {
      assert ss[k..k] == [];
    }
  }

  /** What the start-up code hands to `main` is the count of arguments, the file name followed by
      the arguments, and the environment. */
  ghost predicate ReadsBack(m: Bytes, file: Bytes, argv: seq<Bytes>, envp: seq<Bytes>) {
    4 <= |m| <= USER_STACK_TOP && var s := Start(m);
    s.argc == |argv| + 1 && ReadVector(m, s.argv) == Good([file] + argv) && ReadVector(m, s.envp) == Good(envp)
  }

  lemma StartReadsBack(file: Bytes, argv: seq<Bytes>, envp: seq<Bytes>)
    requires Fits(file, argv, envp) && AreStrings(Strings(file, argv, envp))
    ensures ReadsBack(Image(file, argv, envp), file, argv, envp)
  {
    ImageIsLaid(file, argv, envp);
    hide *;
    LaidReadsBack(Image(file, argv, envp), Header(file, argv, envp), Strings(file, argv, envp), file, argv, envp);
  }

  lemma LaidReadsBack(m: Bytes, h: seq<int>, ss: seq<Bytes>, file: Bytes, argv: seq<Bytes>, envp: seq<Bytes>)
    requires h == Header(file, argv, envp) && ss == Strings(file, argv, envp) && Laid(m, h, ss)
    ensures ReadsBack(m, file, argv, envp)
  {
    hide Strings, ReadVector, Points, Address, Header;
    HeaderPoints(file, argv, envp);
    StringsParts(file, argv, envp);
    HeaderWord(file, argv, envp, 0);
    VectorReadsBack(m, h, ss, 1, |argv| + 1, 0);
    VectorReadsBack(m, h, ss, |argv| + 3, |envp|, |argv| + 1);
  }

  lemma HeaderPoints(file: Bytes, argv: seq<Bytes>, envp: seq<Bytes>)
    ensures var h, ss := Header(file, argv, envp), Strings(file, argv, envp);
            Points(h, ss, 1, |argv| + 1, 0) && Points(h, ss, |argv| + 3, |envp|, |argv| + 1)
  {
    hide Address;
    forall i: nat | i < |argv| + |envp| + 4 {
      HeaderWord(file, argv, envp, i);
    }
  }

  lemma StringsParts(file: Bytes, argv: seq<Bytes>, envp: seq<Bytes>)
    ensures var ss, a := Strings(file, argv, envp), |argv|;
            |ss| == a + |envp| + 1 && ss[0..a + 1] == [file] + argv && ss[a + 1..a + 1 + |envp|] == envp
  {}

  /** All strings lie behind the header, each ending where the next begins: inside the image and disjoint. */
  lemma StringsDisjoint(file: Bytes, argv: seq<Bytes>, envp: seq<Bytes>, k: nat, l: nat)
    requires Fits(file, argv, envp) && AreStrings(Strings(file, argv, envp)) && k < l <= |argv| + |envp|
    ensures var ss := Strings(file, argv, envp); var base := USER_STACK_TOP - |Image(file, argv, envp)|;
            base + 4 * (|argv| + |envp| + 4) <= Address(ss, k)
            && Address(ss, k) + |ss[k]| < Address(ss, l) && Address(ss, l) + |ss[l]| < USER_STACK_TOP
  {
    var ss := Strings(file, argv, envp);
    HeaderInRange(file, argv, envp);
    var head := Words(AsWords(Header(file, argv, envp)));
    StringInImage(head, ss, k);
    StringInImage(head, ss, l);
    BlobSplit(ss[k + 1..], l - (k + 1));
    assert ss[k + 1..][l - (k + 1)..] == ss[l..];
  }

  // ------------------------------------------------------ building the image

  /** The end of the kernel's buffer holds strings `k` on; `utop` is where they will be. */
  ghost predicate Pushed(pages: seq<byte>, ss: seq<Bytes>, ktop: nat, utop: int, k: nat) {
    k <= |ss| && ktop <= |pages| && pages[ktop..] == Blob(ss[k..]) && utop == Address(ss, k)
  }

  lemma BlobStep(ss: seq<Bytes>, k: nat)
    requires k < |ss|
    ensures Blob(ss[k..]) == ss[k] + [0 as byte] + Blob(ss[k + 1..]) && |Blob(ss[k..])| <= |Blob(ss)|
    ensures Address(ss, k) == Address(ss, k + 1) - |ss[k]| - 1
  {
    BlobSplit(ss, k);
    assert ss[k..][1..] == ss[k + 1..];
  }

  /** Copies one string below those already there. */
  method PushString(pages: array<byte>, ktop0: nat, utop0: int, s: Bytes, ghost ss: seq<Bytes>, ghost k: nat)
    returns (ktop: nat, utop: int)
    requires k < |ss| && s == ss[k] && Pushed(pages[..], ss, ktop0, utop0, k + 1) && |Blob(ss)| <= pages.Length
    modifies pages
    ensures Pushed(pages[..], ss, ktop, utop, k)
  {
    BlobStep(ss, k);
    hide Blob, Address;
    ghost var rest := pages[ktop0..];
    var len := |s| + 1;
    ktop, utop := ktop0 - len, utop0 - len;
    Memcpy(pages, ktop, s + [0 as byte]);
    assert pages[ktop..] == s + [0 as byte] + rest;
  }

  lemma {:induction false} WordsAppend(a: seq<nat>, b: seq<nat>)
    requires (forall i :: 0 <= i < |a| ==> a[i] < WORD) && (forall i :: 0 <= i < |b| ==> b[i] < WORD)
    ensures Words(a + b) == Words(a) + Words(b)
  {
    if a == [] {
      assert a + b == b;
    } else {
      assert (a + b)[1..] == a[1..] + b;
      WordsAppend(a[1..], b);
    }
  }

  /** Copies a vector of words below what is already there: words `k` on of the header `h`. */
  method PushWords(pages: array<byte>, ktop0: nat, ws: seq<nat>, ghost h: seq<nat>, ghost k: nat, ghost tail: Bytes) returns (ktop: nat)
    requires (forall i :: 0 <= i < |h| ==> h[i] < WORD) && k + |ws| <= |h| && ws == h[k..k + |ws|]
    requires 4 * |ws| <= ktop0 <= pages.Length && pages[ktop0..] == Words(h[k + |ws|..]) + tail
    modifies pages
    ensures ktop == ktop0 - 4 * |ws| && pages[ktop..] == Words(h[k..]) + tail
  {
    WordsAppend(ws, h[k + |ws|..]);
    assert ws + h[k + |ws|..] == h[k..];
    ghost var rest := pages[ktop0..];
    ktop := ktop0 - 4 * |ws|;
    hide Words;
    Memcpy(pages, ktop, Words(ws));
    assert pages[ktop..] == Words(ws) + rest;
  }

  /** The pointers of the environment from entry `i` on, and of the arguments from entry `j` on, are set. */
  ghost predicate Vectors(v: seq<nat>, ss: seq<Bytes>, argc: nat, envc: nat, i: nat, j: nat) {
    && |v| == VECTOR_WORDS && argc + envc + 2 <= VECTOR_WORDS && |ss| == argc + envc && v[argc] == 0 && v[argc + 1 + envc] == 0
    && (forall y :: argc + 1 + i <= y < argc + 1 + envc ==> v[y] == Address(ss, y - 1))
    && (forall x :: j <= x < argc ==> v[x] == Address(ss, x))
  }

  /** `set_env_and_clean_fork`; `stack` is the memory below the top of the user stack. */
  method SetEnv(file: Bytes, argv: seq<Bytes>, envp: seq<Bytes>, stack: array<byte>) returns (utop: int)
    requires Fits(file, argv, envp) && AreStrings(Strings(file, argv, envp)) && stack.Length == BUFFER
    modifies stack
    ensures var m := Image(file, argv, envp);
            utop == USER_STACK_TOP - |m| && |m| <= BUFFER && stack[BUFFER - |m|..] == m && stack[..BUFFER - |m|] == old(stack[..BUFFER - |m|])
  {
    ghost var ss := Strings(file, argv, envp);
    var pages := new byte[BUFFER];
    var vector, ktop := PushStrings(file, argv, envp, pages);
    ktop := PushHeader(file, argv, envp, pages, vector, ktop);
    assert ktop > 0;
    utop := USER_STACK_TOP - (BUFFER - ktop);
    Memcpy(stack, ktop, pages[ktop..]);
  }

  /** Copies the strings, last first, and notes where each will be. */
  method PushStrings(file: Bytes, argv: seq<Bytes>, envp: seq<Bytes>, pages: array<byte>) returns (vector: array<nat>, ktop: nat)
    requires Fits(file, argv, envp) && pages.Length == BUFFER
    modifies pages
    ensures fresh(vector) && ktop <= BUFFER && pages[ktop..] == Blob(Strings(file, argv, envp))
    ensures Vectors(vector[..], Strings(file, argv, envp), |argv| + 1, |envp|, 0, 0)
  {
    ghost var ss := Strings(file, argv, envp);
    StringsParts(file, argv, envp);
    var argc, envc := |argv| + 1, |envp|;
    vector := new nat[VECTOR_WORDS];
    vector[argc] := 0;
    vector[argc + 1 + envc] := 0;
    ktop := BUFFER;
    var utop := USER_STACK_TOP;
    assert ss[argc + envc..] == [];
    ktop, utop := PushRun(pages, ktop, utop, envp, vector, argc + 1, ss, argc, argc, envc);
    assert ss[1..argc] == argv by { assert ss[0..argc] == [file] + argv; }
    ktop, utop := PushRun(pages, ktop, utop, argv, vector, 1, ss, 1, argc, envc);
    AddressIsNat(ss, 0);
    ktop, utop := PushString(pages, ktop, utop, file, ss, 0);
    vector[0] := utop;
    assert ss[0..] == ss;
  }

  /** The loops over the environment and over the arguments: strings `list` are strings `k` on,
      and their pointers go to entries `at` on. */
  method PushRun(pages: array<byte>, ktop0: nat, utop0: int, list: seq<Bytes>, vector: array<nat>, at: nat,
                 ghost ss: seq<Bytes>, ghost k: nat, ghost argc: nat, ghost envc: nat)
    returns (ktop: nat, utop: int)
    requires k + |list| <= |ss| && ss[k..k + |list|] == list && |Blob(ss)| <= BUFFER == pages.Length
    requires Pushed(pages[..], ss, ktop0, utop0, k + |list|)
    requires at + |list| <= vector.Length && argc >= 1
    requires (at == argc + 1 && k == argc && |list| == envc && Vectors(vector[..], ss, argc, envc, envc, argc))
             || (at == 1 == k && |list| == argc - 1 && Vectors(vector[..], ss, argc, envc, 0, argc))
    modifies pages, vector
    ensures Pushed(pages[..], ss, ktop, utop, k)
    ensures Vectors(vector[..], ss, argc, envc, 0, if at == 1 then 1 else argc)
  {
    hide Blob, Pushed, Address;
    var i := |list|;
    ktop, utop := ktop0, utop0;
    while i > 0
      invariant 0 <= i <= |list| && Pushed(pages[..], ss, ktop, utop, k + i)
      invariant if at == 1 then Vectors(vector[..], ss, argc, envc, 0, 1 + i) else Vectors(vector[..], ss, argc, envc, i, argc)
    {
      i := i - 1;
      AddressIsNat(ss, k + i);
      assert ss[k..k + |list|][i] == ss[k + i];
      ktop, utop := PushString(pages, ktop, utop, list[i], ss, k + i);
      PushedAt(pages[..], ss, ktop, utop, k + i);
      vector[at + i] := utop;
    }
  }

  lemma PushedAt(pages: seq<byte>, ss: seq<Bytes>, ktop: nat, utop: int, k: nat)
    requires Pushed(pages, ss, ktop, utop, k)
    ensures utop == Address(ss, k)
  {}

  lemma AddressIsNat(ss: seq<Bytes>, k: nat)
    requires k <= |ss| && |Blob(ss)| <= BUFFER
    ensures 0 <= Address(ss, k) < WORD
  {
    BlobSplit(ss, k);
  }

  /** Copies the two vectors and the count. */
  method PushHeader(file: Bytes, argv: seq<Bytes>, envp: seq<Bytes>, pages: array<byte>, vector: array<nat>, ktop0: nat) returns (ktop: nat)
    requires Fits(file, argv, envp) && pages.Length == BUFFER && ktop0 <= BUFFER && pages[ktop0..] == Blob(Strings(file, argv, envp))
    requires Vectors(vector[..], Strings(file, argv, envp), |argv| + 1, |envp|, 0, 0)
    modifies pages
    ensures 0 < ktop <= BUFFER && pages[ktop..] == Image(file, argv, envp)
  {
    var argc, envc := |argv| + 1, |envp|;
    HeaderInRange(file, argv, envp);
    ghost var h, tail := AsWords(Header(file, argv, envp)), pages[ktop0..];
    HeaderIs(file, argv, envp, vector[..], h);
    assert ktop0 == BUFFER - |tail| && Words(h[|h|..]) + tail == tail && h[0..] == h;
    hide Header, Words, Blob, Strings, Vectors, AsWords;
    ktop := PushWords(pages, ktop0, vector[argc + 1..argc + envc + 2], h, argc + 2, tail);
    ktop := PushWords(pages, ktop, vector[..argc + 1], h, 1, tail);
    ktop := PushWords(pages, ktop, [argc], h, 0, tail);
  }

  lemma HeaderIs(file: Bytes, argv: seq<Bytes>, envp: seq<Bytes>, v: seq<nat>, h: seq<nat>)
    requires Vectors(v, Strings(file, argv, envp), |argv| + 1, |envp|, 0, 0) && Fits(file, argv, envp)
    requires |h| == |Header(file, argv, envp)| && forall i :: 0 <= i < |h| ==> h[i] == Header(file, argv, envp)[i] < WORD
    ensures var argc := |argv| + 1;
            h[0..1] == [argc] && h[1..argc + 2] == v[..argc + 1] && h[argc + 2..] == v[argc + 1..argc + |envp| + 2]
  {
    var argc := |argv| + 1;
    hide Header;
    HeaderWord(file, argv, envp, 0);
    forall i: nat | 1 <= i < |h| ensures h[i] == v[i - 1] {
      HeaderWord(file, argv, envp, i);
    }
  }
}
