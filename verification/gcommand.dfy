/** The G-line decoder (`GCommand`). It copies one line and appends a space,
    extracts and checks the opcode, tokenizes the arguments on first demand,
    and answers per-letter queries through a capability table. The static
    fields of the Java class become the fields of a `Decoder` value that every
    operation takes and returns. */
module GCommand {
  import opened Results
  import opened Ascii
  import Command

  /** The six argument letters the decoder keeps. */
  datatype Axis = X | Y | Z | E | F | P

  /** Position of a letter in the order the decoder and `explain` use. */
  function Rank(a: Axis): nat
  {
    match a
    case X => 0
    case Y => 1
    case Z => 2
    case E => 3
    case F => 4
    case P => 5
  }

  /** `has_X`/`arg_X` ... `has_P`/`arg_P`: one optional value per letter. */
  datatype Args = Args(x: Option<real>, y: Option<real>, z: Option<real>,
                       e: Option<real>, f: Option<real>, p: Option<real>)
  {
    function Get(a: Axis): Option<real>
    {
      match a
      case X => x
      case Y => y
      case Z => z
      case E => e
      case F => f
      case P => p
    }

    function Set(a: Axis, v: real): (r: Args)
      ensures r.Get(a) == Some(v)
      ensures forall b :: b != a ==> r.Get(b) == Get(b)
    {
      match a
      case X => this.(x := Some(v))
      case Y => this.(y := Some(v))
      case Z => this.(z := Some(v))
      case E => this.(e := Some(v))
      case F => this.(f := Some(v))
      case P => this.(p := Some(v))
    }
  }

  const NoArgs: Args := Args(None, None, None, None, None, None)

  /** Two argument sets that agree on every letter are the same. */
  lemma ArgsExt(u: Args, v: Args)
    requires forall a :: u.Get(a) == v.Get(a)
    ensures u == v
  {
    assert u.Get(X) == v.Get(X) && u.Get(Y) == v.Get(Y) && u.Get(Z) == v.Get(Z);
    assert u.Get(E) == v.Get(E) && u.Get(F) == v.Get(F) && u.Get(P) == v.Get(P);
  }

  /** The argument letter a byte names, in either case. */
  function AxisOf(b: Byte): Option<Axis>
  {
    if b == 88 || b == 120 then Some(X)
    else if b == 89 || b == 121 then Some(Y)
    else if b == 90 || b == 122 then Some(Z)
    else if b == 69 || b == 101 then Some(E)
    else if b == 70 || b == 102 then Some(F)
    else if b == 80 || b == 112 then Some(P)
    else None
  }

  /** The separators of the argument tokenizer. */
  predicate IsWhite(b: Byte)
  {
    b == SPACE || b == TAB
  }

  /** The longest line `setData` accepts. */
  const MaxLine: nat := 127

  /** The decoder state: `buf`/`buflen` as one sequence, the opcode, whether
      the arguments of the current line have been parsed, and the arguments. */
  datatype Decoder = Decoder(buf: seq<Byte>, code: int, hasArgs: bool, args: Args)

  /** The state before any line: an empty buffer and opcode -1. */
  const Initial: Decoder := Decoder([], -1, false, NoArgs)

  /** Why `setData` rejected a line (the three exceptions it throws). */
  datatype DecodeError = LineTooLong | Malformed | NoOpcode

  /** The two exceptions of the per-letter accessors. */
  datatype ArgError = ArgumentInvalid(code: int, axis: Axis) | ArgumentNotFound(axis: Axis)

  // ---------------------------------------------------------------------------
  // setData and validCode

  /** A line the opcode extraction accepts: not too long, and a digit right
      after the command letter. */
  predicate WellFormed(line: seq<Byte>)
  {
    2 <= |line| <= MaxLine && IsDigit(line[1])
  }

  /** The opcode of a well-formed line: the decimal value of the longest run
      of digits that starts right after the command letter. */
  function OpcodeOf(line: seq<Byte>): (r: nat)
    requires WellFormed(line)
  {
    var ds := line[1..];
    DecimalValue(ds[..Command.DigitRun(ds)])
  }

  /** First index at or after i whose byte is not a digit, or |buf|. */
  function FirstNonDigit(buf: seq<Byte>, i: nat): (r: nat)
    requires i <= |buf|
    ensures i <= r <= |buf|
    ensures forall k :: i <= k < r ==> IsDigit(buf[k])
    ensures r < |buf| ==> !IsDigit(buf[r])
    decreases |buf| - i
  {
    if i == |buf| || !IsDigit(buf[i]) then i else FirstNonDigit(buf, i + 1)
  }

  /** `setData`: copy the line, append the space sentinel, clear `hasArgs`
      and extract the opcode. The arguments of the previous line stay in the
      state; `hasArgs` being false is what keeps them from being read. */
  function SetData(d: Decoder, line: seq<Byte>): (r: Result<Decoder, DecodeError>)
    ensures r == Err(LineTooLong) <==> |line| > MaxLine
    ensures |line| == 0 ==> r == Err(NoOpcode)
    ensures 0 < |line| <= MaxLine ==> (r == Err(Malformed) <==> !WellFormed(line))
    ensures r.Ok? <==> WellFormed(line)
    ensures r.Ok? ==> r.value == Decoder(line + [SPACE], OpcodeOf(line), false, d.args)
  {
    if |line| > MaxLine then Err(LineTooLong)
    else
      var buf := line + [SPACE];
      var stop := FirstNonDigit(buf, 1);
      if stop < |buf| && stop == 1 then Err(Malformed)
      else
        var code := if stop < |buf| then Command.ParseInt(buf, 1, stop) else -1;
        if code == -1 then
          assert buf[|buf| - 1] == SPACE;
          Err(NoOpcode)
        else
          OpcodeFromScan(line, stop);
          Ok(Decoder(buf, code, false, d.args))
  }

  /** The digits the opcode loop stops at are the maximal digit run after the letter. */
  lemma OpcodeFromScan(line: seq<Byte>, stop: nat)
    requires 1 <= |line| <= MaxLine
    requires stop == FirstNonDigit(line + [SPACE], 1) && 1 < stop < |line| + 1
    ensures WellFormed(line)
    ensures Command.ParseInt(line + [SPACE], 1, stop) == OpcodeOf(line)
  {
    OpcodeRun(line, stop);
  }

  /** The digits the loop passes over are the run `OpcodeOf` reads. */
  lemma OpcodeRun(line: seq<Byte>, stop: nat)
    requires 1 <= |line| <= MaxLine
    requires stop == FirstNonDigit(line + [SPACE], 1) && 1 < stop < |line| + 1
    ensures IsDigit(line[1])
    ensures (line + [SPACE])[1..stop] == line[1..][..stop - 1]
    ensures AllDigits(line[1..][..stop - 1]) && Command.DigitRun(line[1..]) == stop - 1
  {
    var buf := line + [SPACE];
    var ds := line[1..];
    assert IsDigit(buf[1]);
    assert buf[1..stop] == ds[..stop - 1];
    assert AllDigits(ds[..stop - 1]);
    if stop - 1 < |ds| {
      assert ds[stop - 1] == buf[stop];
      Command.DigitRunStops(ds, stop - 1);
    } else {
      assert ds[..stop - 1] == ds;
    }
  }

  /** `validCode`: the opcodes the program supports. They are the opcodes
      some letter may be asked for, and the four mode switches, which take
      no argument. */
  predicate ValidCode(code: int): (r: bool)
    ensures r <==> (exists a :: Legal(code, a)) || code == 20 || code == 21 || code == 90 || code == 91
  {
    assert code == 4 ==> Legal(code, P);
    assert code in {0, 1, 28, 92} ==> Legal(code, X);
    code == 0 || code == 1 || code == 4 || code == 20 || code == 21 ||
    code == 28 || code == 90 || code == 91 || code == 92
  }

  /** The capability table: which letters each opcode may be asked for. A
      move takes the four axes and a feed rate, homing the three axes, a
      position set the four axes, a dwell only P. */
  predicate Legal(code: int, a: Axis): (r: bool)
    ensures (code == 0 || code == 1) ==> (r <==> a in [X, Y, Z, E, F])
    ensures code == 28 ==> (r <==> a in [X, Y, Z])
    ensures code == 92 ==> (r <==> a in [X, Y, Z, E])
    ensures code == 4 ==> (r <==> a == P)
    ensures code !in {0, 1, 4, 28, 92} ==> !r
  {
    match a
    case X => code == 0 || code == 1 || code == 28 || code == 92
    case Y => code == 0 || code == 1 || code == 28 || code == 92
    case Z => code == 0 || code == 1 || code == 28 || code == 92
    case E => code == 0 || code == 1 || code == 92
    case F => code == 0 || code == 1
    case P => code == 4
  }

  /** Every opcode that accepts some argument is a supported one. */
  lemma LegalOnlyForValid(code: int, a: Axis)
    requires Legal(code, a)
    ensures ValidCode(code)
  {
  }

  // ---------------------------------------------------------------------------
  // parseArguments

  /** The two states of the argument tokenizer: looking for a letter, or
      collecting the value after `letter`, which began at `start`. */
  datatype ScanState = FindArg | FindVal(letter: Byte, start: nat)

  datatype Scan = Scan(state: ScanState, args: Args)

  /** Store a value under the letter, when the letter is one of the six. */
  function Store(args: Args, letter: Byte, v: real): (r: Args)
    ensures forall a :: r.Get(a) == if AxisOf(letter) == Some(a) then Some(v) else args.Get(a)
  {
    match AxisOf(letter)
    case None => args
    case Some(a) => args.Set(a, v)
  }

  /** One iteration of the tokenizer loop, at index i. */
  function ArgStep(buf: seq<Byte>, i: nat, st: ScanState, args: Args): (r: Scan)
    requires i < |buf|
    requires st.FindVal? ==> st.start <= i
    ensures r.state.FindVal? ==> r.state.start <= i + 1
  {
    match st
    case FindArg =>
      if !IsWhite(buf[i]) then Scan(FindVal(buf[i], i + 1), args) else Scan(FindArg, args)
    case FindVal(letter, start) =>
      if IsWhite(buf[i]) then
        var v := if i == start then 0.0 else Command.ParseFloat(buf, start, i);
        Scan(FindArg, Store(args, letter, v))
      else Scan(st, args)
  }

  /** The tokenizer loop from index i to the end of the buffer. */
  function ArgLoop(buf: seq<Byte>, i: nat, st: ScanState, args: Args): (r: Scan)
    requires i <= |buf|
    requires st.FindVal? ==> st.start <= i
    ensures r.state.FindVal? ==> r.state.start <= |buf|
    decreases |buf| - i
  {
    if i == |buf| then Scan(st, args)
    else
      var next := ArgStep(buf, i, st, args);
      ArgLoop(buf, i + 1, next.state, next.args)
  }

  /** `parseArguments`: clear all six arguments, run the tokenizer, then store
      a value still being collected when the buffer ran out. */
  function ParseArguments(buf: seq<Byte>): (r: Args)
    ensures EndsWhite(buf) ==> r == ArgsSpec(buf)
  {
    var s := ArgLoop(buf, 0, FindArg, NoArgs);
    ArgLoopMeaning(buf);
    match s.state
    case FindArg => s.args
    case FindVal(letter, start) => Store(s.args, letter, Command.ParseFloat(buf, start, |buf|))
  }

  // The reference reading of a buffer, token by token.

  /** A token (maximal run of non-white bytes) starts at j. */
  predicate TokenStart(s: seq<Byte>, j: int)
  {
    0 <= j < |s| && !IsWhite(s[j]) && (j == 0 || IsWhite(s[j - 1]))
  }

  /** The end of the run of non-white bytes that starts at i. */
  function RunEnd(s: seq<Byte>, i: nat): (e: nat)
    requires i <= |s|
    ensures i <= e <= |s|
    ensures forall k :: i <= k < e ==> !IsWhite(s[k])
    ensures e < |s| ==> IsWhite(s[e])
    decreases |s| - i
  {
    if i == |s| || IsWhite(s[i]) then i else RunEnd(s, i + 1)
  }

  /** The value a token carries: 0 for a bare letter, otherwise the float scan
      of the bytes after the letter. */
  function TokenValue(s: seq<Byte>, j: nat): (r: real)
    requires j < |s|
    ensures r >= 0.0
  {
    var e := RunEnd(s, j + 1);
    if e == j + 1 then 0.0 else Command.ParseFloat(s, j + 1, e)
  }

  /** The last token before index n that starts with the letter of `a`. */
  function LastStart(s: seq<Byte>, a: Axis, n: nat): (r: Option<nat>)
    requires n <= |s|
    ensures r.Some? ==> r.value < n && TokenStart(s, r.value) && AxisOf(s[r.value]) == Some(a)
    ensures r.Some? ==> forall j :: r.value < j < n && TokenStart(s, j) ==> AxisOf(s[j]) != Some(a)
    ensures r.None? ==> forall j :: 0 <= j < n && TokenStart(s, j) ==> AxisOf(s[j]) != Some(a)
  {
    if n == 0 then None
    else if TokenStart(s, n - 1) && AxisOf(s[n - 1]) == Some(a) then Some(n - 1)
    else LastStart(s, a, n - 1)
  }

  /** What the tokens starting before n say about `a`. */
  function SpecAt(s: seq<Byte>, a: Axis, n: nat): Option<real>
    requires n <= |s|
  {
    match LastStart(s, a, n)
    case None => None
    case Some(j) => Some(TokenValue(s, j))
  }

  function SpecUpTo(s: seq<Byte>, n: nat): (r: Args)
    requires n <= |s|
    ensures forall a :: r.Get(a) == SpecAt(s, a, n)
  {
    var r := Args(SpecAt(s, X, n), SpecAt(s, Y, n), SpecAt(s, Z, n), SpecAt(s, E, n), SpecAt(s, F, n), SpecAt(s, P, n));
    SpecUpToGet(s, n, r);
    r
  }

  lemma SpecUpToGet(s: seq<Byte>, n: nat, r: Args)
    requires n <= |s|
    requires r == Args(SpecAt(s, X, n), SpecAt(s, Y, n), SpecAt(s, Z, n), SpecAt(s, E, n), SpecAt(s, F, n), SpecAt(s, P, n))
    ensures forall a :: r.Get(a) == SpecAt(s, a, n)
  {
    forall a
      ensures r.Get(a) == SpecAt(s, a, n)
    {
      match a
      case X =>
      case Y =>
      case Z =>
      case E =>
      case F =>
      case P =>
    }
  }

  /** The arguments a buffer states: for each letter, the value of the last
      token that starts with it. */
  function ArgsSpec(s: seq<Byte>): Args
  {
    SpecUpTo(s, |s|)
  }

  predicate EndsWhite(s: seq<Byte>)
  {
    |s| > 0 && IsWhite(s[|s| - 1])
  }

  /** What the tokenizer knows after reading s[..n]. */
  ghost predicate ScanInv(s: seq<Byte>, n: nat, sc: Scan)
  {
    n <= |s| &&
    match sc.state
    case FindArg =>
      (n == 0 || IsWhite(s[n - 1])) && sc.args == SpecUpTo(s, n)
    case FindVal(letter, start) =>
      && 1 <= start <= n
      && TokenStart(s, start - 1)
      && letter == s[start - 1]
      && (forall k :: start <= k < n ==> !IsWhite(s[k]))
      && sc.args == SpecUpTo(s, start - 1)
  }

  /** No token starts in [c, m), so the last start before m is the last before c. */
  lemma {:induction false} LastStartSkip(s: seq<Byte>, a: Axis, c: nat, m: nat)
    requires c <= m <= |s|
    requires forall j :: c <= j < m ==> !TokenStart(s, j)
    ensures LastStart(s, a, m) == LastStart(s, a, c)
    decreases m - c
  {
    if m > c {
      LastStartSkip(s, a, c, m - 1);
    }
  }

  lemma RunEndAt(s: seq<Byte>, i: nat, n: nat)
    requires i <= n < |s| && IsWhite(s[n])
    requires forall k :: i <= k < n ==> !IsWhite(s[k])
    ensures RunEnd(s, i) == n
  {
  }

  /** A separator between tokens leaves the reading unchanged. */
  lemma SpecSkipWhite(s: seq<Byte>, n: nat)
    requires n < |s| && IsWhite(s[n])
    ensures SpecUpTo(s, n + 1) == SpecUpTo(s, n)
  {
    forall a ensures SpecAt(s, a, n + 1) == SpecAt(s, a, n) {
      LastStartSkip(s, a, n, n + 1);
    }
    ArgsExt(SpecUpTo(s, n + 1), SpecUpTo(s, n));
  }

  /** No token starts inside a run of non-white bytes. */
  lemma NoStartInside(s: seq<Byte>, j: nat, n: nat, a: Axis)
    requires j < n < |s| && IsWhite(s[n])
    requires forall k :: j <= k < n ==> !IsWhite(s[k])
    ensures LastStart(s, a, n + 1) == LastStart(s, a, j + 1)
  {
    forall k | j + 1 <= k < n + 1 ensures !TokenStart(s, k) {
      assert !IsWhite(s[k - 1]);
    }
    LastStartSkip(s, a, j + 1, n + 1);
  }

  /** The separator that closes the token at j records that token's value. */
  lemma SpecCloseToken(s: seq<Byte>, j: nat, n: nat)
    requires j < n < |s| && TokenStart(s, j) && IsWhite(s[n])
    requires forall k :: j < k < n ==> !IsWhite(s[k])
    ensures SpecUpTo(s, n + 1) == Store(SpecUpTo(s, j), s[j], TokenValue(s, j))
  {
    var spec := SpecUpTo(s, n + 1);
    var stored := Store(SpecUpTo(s, j), s[j], TokenValue(s, j));
    forall a ensures spec.Get(a) == stored.Get(a) {
      SpecAtClose(s, j, n, a);
    }
    ArgsExt(spec, stored);
  }

  /** For one letter: after the closing separator, the last token with that
      letter is the one at j if it has that letter, else the last before j. */
  lemma SpecAtClose(s: seq<Byte>, j: nat, n: nat, a: Axis)
    requires j < n < |s| && TokenStart(s, j) && IsWhite(s[n])
    requires forall k :: j < k < n ==> !IsWhite(s[k])
    ensures SpecAt(s, a, n + 1) == if AxisOf(s[j]) == Some(a) then Some(TokenValue(s, j)) else SpecAt(s, a, j)
  {
    NoStartInside(s, j, n, a);
  }

  lemma FindArgKeeps(s: seq<Byte>, n: nat, args: Args)
    requires n < |s| && ScanInv(s, n, Scan(FindArg, args))
    ensures ScanInv(s, n + 1, ArgStep(s, n, FindArg, args))
  {
    if IsWhite(s[n]) {
      SpecSkipWhite(s, n);
    } else {
      assert TokenStart(s, n);
    }
  }

  lemma FindValKeeps(s: seq<Byte>, n: nat, letter: Byte, start: nat, args: Args)
    requires n < |s| && ScanInv(s, n, Scan(FindVal(letter, start), args))
    ensures ScanInv(s, n + 1, ArgStep(s, n, FindVal(letter, start), args))
  {
    if IsWhite(s[n]) {
      CloseKeeps(s, n, letter, start, args);
    }
  }

  lemma CloseKeeps(s: seq<Byte>, n: nat, letter: Byte, start: nat, args: Args)
    requires n < |s| && IsWhite(s[n]) && ScanInv(s, n, Scan(FindVal(letter, start), args))
    ensures ScanInv(s, n + 1, ArgStep(s, n, FindVal(letter, start), args))
  {
    RunEndAt(s, start, n);
    var v := if n == start then 0.0 else Command.ParseFloat(s, start, n);
    assert v == TokenValue(s, start - 1);
    SpecCloseToken(s, start - 1, n);
    assert ArgStep(s, n, FindVal(letter, start), args) == Scan(FindArg, Store(args, letter, v));
  }

  /** One iteration of the tokenizer keeps `ScanInv`. */
  lemma ArgStepKeeps(s: seq<Byte>, n: nat, sc: Scan)
    requires n < |s| && ScanInv(s, n, sc)
    ensures ScanInv(s, n + 1, ArgStep(s, n, sc.state, sc.args))
  {
    match sc.state
    case FindArg => FindArgKeeps(s, n, sc.args);
    case FindVal(letter, start) => FindValKeeps(s, n, letter, start, sc.args);
  }

  /** The tokenizer loop keeps `ScanInv` to the end of the buffer. */
  lemma {:induction false} ArgLoopKeeps(s: seq<Byte>, n: nat, sc: Scan)
    requires ScanInv(s, n, sc)
    requires sc.state.FindVal? ==> sc.state.start <= n
    ensures ScanInv(s, |s|, ArgLoop(s, n, sc.state, sc.args))
    decreases |s| - n
  {
    if n < |s| {
      var next := ArgStep(s, n, sc.state, sc.args);
      ArgStepKeeps(s, n, sc);
      ArgLoopKeeps(s, n + 1, next);
      assert ArgLoop(s, n, sc.state, sc.args) == ArgLoop(s, n + 1, next.state, next.args);
    } else {
      assert ArgLoop(s, n, sc.state, sc.args) == sc;
    }
  }

  /** On a buffer that ends in white space (as every buffer `setData` builds
      does) the tokenizer finishes between tokens, so the block for a value
      still being collected at the end never runs, and each letter holds the
      value of the last token that starts with it, in either case; a letter
      no token starts with is absent. */
  lemma ParseArgumentsMeaning(buf: seq<Byte>)
    requires EndsWhite(buf)
    ensures ArgLoop(buf, 0, FindArg, NoArgs).state == FindArg
    ensures ParseArguments(buf) == ArgsSpec(buf)
  {
    ArgLoopMeaning(buf);
  }

  /** The tokenizer loop over a buffer that ends in white space finishes
      between tokens, holding the reference reading of the buffer. */
  lemma ArgLoopMeaning(buf: seq<Byte>)
    ensures EndsWhite(buf) ==> ArgLoop(buf, 0, FindArg, NoArgs) == Scan(FindArg, ArgsSpec(buf))
  {
    if !EndsWhite(buf) {
      return;
    }
    assert SpecUpTo(buf, 0) == NoArgs by {
      ArgsExt(SpecUpTo(buf, 0), NoArgs);
    }
    ArgLoopKeeps(buf, 0, Scan(FindArg, NoArgs));
  }

  /** The case-insensitive, last-one-wins reading of a single letter. */
  lemma PresenceMeaning(buf: seq<Byte>, a: Axis)
    requires EndsWhite(buf)
    ensures ParseArguments(buf).Get(a).Some? <==>
            exists j :: TokenStart(buf, j) && AxisOf(buf[j]) == Some(a)
    ensures forall j :: TokenStart(buf, j) && AxisOf(buf[j]) == Some(a) &&
                        (forall j' :: j < j' < |buf| && TokenStart(buf, j') ==> AxisOf(buf[j']) != Some(a)) ==>
                        ParseArguments(buf).Get(a) == Some(TokenValue(buf, j))
  {
    ParseArgumentsMeaning(buf);
    SpecAtPresent(buf, a);
    assert ParseArguments(buf).Get(a) == SpecAt(buf, a, |buf|);
    forall j | TokenStart(buf, j) && AxisOf(buf[j]) == Some(a) &&
               (forall j' :: j < j' < |buf| && TokenStart(buf, j') ==> AxisOf(buf[j']) != Some(a))
      ensures ParseArguments(buf).Get(a) == Some(TokenValue(buf, j))
    {
      SpecAtLast(buf, a, j);
    }
  }

  /** A letter has a reference value exactly when some token starts with it. */
  lemma SpecAtPresent(buf: seq<Byte>, a: Axis)
    ensures SpecAt(buf, a, |buf|).Some? <==>
            exists j :: TokenStart(buf, j) && AxisOf(buf[j]) == Some(a)
  {
    var r := LastStart(buf, a, |buf|);
    if r.Some? {
      assert TokenStart(buf, r.value) && AxisOf(buf[r.value]) == Some(a);
    }
  }

  /** The reference value of a letter is the value of the last token that
      starts with it. */
  lemma SpecAtLast(buf: seq<Byte>, a: Axis, j: nat)
    requires TokenStart(buf, j) && AxisOf(buf[j]) == Some(a)
    requires forall j' :: j < j' < |buf| && TokenStart(buf, j') ==> AxisOf(buf[j']) != Some(a)
    ensures SpecAt(buf, a, |buf|) == Some(TokenValue(buf, j))
  {
    var r := LastStart(buf, a, |buf|);
    assert r.Some?;
    var k := r.value;
    assert TokenStart(buf, k) && AxisOf(buf[k]) == Some(a);
    assert !(k < j) && !(j < k);
  }

  // ---------------------------------------------------------------------------
  // The accessors getX ... getP

  /** The guard at the head of every accessor: parse the arguments unless
      they were already parsed for this line. */
  function Parsed(d: Decoder): (r: Decoder)
    ensures r.hasArgs && r.buf == d.buf && r.code == d.code
    ensures d.hasArgs ==> r == d
    ensures !d.hasArgs ==> r.args == ParseArguments(d.buf)
  {
    if d.hasArgs then d else d.(args := ParseArguments(d.buf), hasArgs := true)
  }

  /** The decoder holds the arguments of its own buffer whenever it says it does. */
  ghost predicate Coherent(d: Decoder)
  {
    d.hasArgs ==> d.args == ParseArguments(d.buf)
  }

  /** The answer an accessor owes for letter `a` on the line in `buf`. */
  function Expected(buf: seq<Byte>, code: int, a: Axis): Result<real, ArgError>
  {
    if !Legal(code, a) then Err(ArgumentInvalid(code, a))
    else match SpecAt(buf, a, |buf|)
      case None => Err(ArgumentNotFound(a))
      case Some(v) => Ok(v)
  }

  datatype Access = Access(dec: Decoder, value: Result<real, ArgError>)

  /** `getX` ... `getP`: parse the arguments if needed, refuse a letter the
      opcode does not take, then refuse a letter the line lacks. */
  function Get(d: Decoder, a: Axis): (r: Access)
    ensures r.dec.hasArgs && r.dec.buf == d.buf && r.dec.code == d.code
    ensures Coherent(d) ==> Coherent(r.dec)
    ensures !Legal(d.code, a) ==> r.value == Err(ArgumentInvalid(d.code, a))
    ensures Coherent(d) && EndsWhite(d.buf) ==> r.value == Expected(d.buf, d.code, a)
  {
    var d' := Parsed(d);
    if !Legal(d'.code, a) then Access(d', Err(ArgumentInvalid(d'.code, a)))
    else
      match d'.args.Get(a)
      case None => Access(d', Err(ArgumentNotFound(a)))
      case Some(v) => Access(d', Ok(v))
  }

  /** After `setData` the answer to any query depends only on the new line:
      the arguments left over from the previous line are never read. */
  lemma FreshLineAnswers(d1: Decoder, d2: Decoder, line: seq<Byte>, a: Axis)
    requires SetData(d1, line).Ok?
    ensures SetData(d2, line).Ok?
    ensures Get(SetData(d1, line).value, a).value == Get(SetData(d2, line).value, a).value
    ensures Get(SetData(d1, line).value, a).value == Expected(line + [SPACE], OpcodeOf(line), a)
  {
  }

  /** An accessor parses at most once per line: the state it leaves behind
      answers every later query without parsing again. */
  lemma ParsesOnce(d: Decoder, a: Axis, b: Axis)
    ensures Get(Get(d, a).dec, b).dec == Get(d, a).dec
  {
  }

  // ---------------------------------------------------------------------------
  // The state a rejected line leaves behind

  /** The decoder after `setData`, whatever its outcome. A rejected line has
      already reset the opcode to -1 and cleared `hasArgs`; a line of normal
      length has also been copied into the buffer. */
  function AfterSetData(d: Decoder, line: seq<Byte>): (r: Decoder)
    ensures SetData(d, line).Ok? ==> r == SetData(d, line).value
    ensures SetData(d, line).Err? ==> r.code == -1 && !r.hasArgs
    ensures SetData(d, line) == Err(Malformed) || SetData(d, line) == Err(NoOpcode) ==>
              r.buf == line + [SPACE]
  {
    match SetData(d, line)
    case Ok(v) => v
    case Err(LineTooLong) => d.(code := -1, hasArgs := false)
    case Err(_) => Decoder(line + [SPACE], -1, false, d.args)
  }

  /** After a rejected line every accessor refuses its letter as invalid for
      opcode -1. A line of 129 bytes or more is not covered: there the buffer
      length is left past the end of the 128-byte buffer, and the argument scan
      an accessor starts runs off it. */
  lemma RejectedRefusesAll(d: Decoder, line: seq<Byte>, a: Axis)
    requires SetData(d, line).Err? && |line| <= MaxLine + 1
    ensures Get(AfterSetData(d, line), a).value == Err(ArgumentInvalid(-1, a))
  {
  }

  // ---------------------------------------------------------------------------
  // explain

  /** One coordinate of a move or position text: the letter and its value. */
  datatype Item = Item(axis: Axis, value: real)

  /** What `explain` returns. The texts with fixed wording are kept as strings;
      the ones that print float values keep the values themselves. */
  datatype Explanation =
    | Text(text: string)
    | Move(opcode: int, coords: seq<Item>, feed: Option<real>)
    | Dwell(ms: real)
    | SetPosition(coords: seq<Item>)

  datatype Explained = Explained(dec: Decoder, out: Result<Explanation, ArgError>)

  predicate RankSorted(axes: seq<Axis>)
  {
    forall i, j :: 0 <= i < j < |axes| ==> Rank(axes[i]) < Rank(axes[j])
  }

  /** Items in strictly increasing letter rank. */
  predicate ItemsSorted(items: seq<Item>)
  {
    forall i, j :: 0 <= i < j < |items| ==> Rank(items[i].axis) < Rank(items[j].axis)
  }

  /** The present letters among `axes`, with their values, in the order given. */
  function Listed(args: Args, axes: seq<Axis>): (r: seq<Item>)
    ensures forall it :: it in r ==> it.axis in axes && args.Get(it.axis) == Some(it.value)
    ensures forall a :: a in axes && args.Get(a).Some? ==> Item(a, args.Get(a).value) in r
    ensures RankSorted(axes) ==> ItemsSorted(r)
  {
    if |axes| == 0 then []
    else
      var rest := Listed(args, axes[1..]);
      match args.Get(axes[0])
      case None => rest
      case Some(v) =>
        if RankSorted(axes) then
          SortedCons(Item(axes[0], v), rest, axes);
          [Item(axes[0], v)] + rest
        else [Item(axes[0], v)] + rest
  }

  /** An item whose letter comes first among sorted letters can head the
      items listed from the letters after it. */
  lemma SortedCons(first: Item, rest: seq<Item>, axes: seq<Axis>)
    requires RankSorted(axes) && |axes| > 0 && first.axis == axes[0]
    requires forall it :: it in rest ==> it.axis in axes[1..]
    requires ItemsSorted(rest)
    ensures ItemsSorted([first] + rest)
  {
    forall it | it in rest
      ensures Rank(first.axis) < Rank(it.axis)
    {
      var k :| 0 <= k < |axes[1..]| && axes[1..][k] == it.axis;
      assert axes[k + 1] == it.axis;
    }
    var r := [first] + rest;
    forall i, j | 0 <= i < j < |r|
      ensures Rank(r[i].axis) < Rank(r[j].axis)
    {
      if i == 0 {
        assert r[j] in rest;
      } else {
        assert r[i] == rest[i - 1] && r[j] == rest[j - 1];
      }
    }
  }

  function Letter(a: Axis): char
  {
    match a
    case X => 'X'
    case Y => 'Y'
    case Z => 'Z'
    case E => 'E'
    case F => 'F'
    case P => 'P'
  }

  /** The "X;Y;" marks of the homing text: the letter and a semicolon per item. */
  function Marks(items: seq<Item>): (r: string)
    ensures |r| == 2 * |items|
    ensures forall i :: 0 <= i < |items| ==> r[2 * i] == Letter(items[i].axis) && r[2 * i + 1] == ';'
  {
    if |items| == 0 then "" else [Letter(items[0].axis), ';'] + Marks(items[1..])
  }

  /** Bytes of ASCII digits as the characters they encode. */
  function Spell(bs: seq<Byte>): (t: string)
    ensures |t| == |bs|
    ensures forall i :: 0 <= i < |bs| ==> t[i] as int == bs[i]
  {
    seq(|bs|, i requires 0 <= i < |bs| => bs[i] as char)
  }

  predicate DigitChars(t: string)
  {
    forall i :: 0 <= i < |t| ==> '0' <= t[i] <= '9'
  }

  /** Digit characters as the bytes that encode them. */
  function Unspell(t: string): (bs: seq<Byte>)
    requires DigitChars(t)
    ensures |bs| == |t| && AllDigits(bs)
    ensures forall i :: 0 <= i < |t| ==> bs[i] == t[i] as int
  {
    seq(|t|, i requires 0 <= i < |t| => t[i] as int)
  }

  /** Java's decimal spelling of an int, with a minus sign for negatives. */
  function IntText(n: int): (r: string)
    ensures |r| >= 1
    ensures n < 0 <==> r[0] == '-'
  {
    var text := Spell(DecimalDigits(if n < 0 then -n else n));
    if n < 0 then "-" + text else text
  }

  /** The value of unsigned digit characters, read back. */
  function DigitsValue(body: string): Option<nat>
  {
    if |body| == 0 || !DigitChars(body) then None else Some(DecimalValue(Unspell(body)))
  }

  /** The value of a decimal spelling, read back. */
  function TextValue(t: string): (v: Option<int>)
  {
    if |t| > 0 && t[0] == '-' then
      match DigitsValue(t[1..])
      case None => None
      case Some(value) => Some(-(value as int))
    else
      match DigitsValue(t)
      case None => None
      case Some(value) => Some(value as int)
  }

  /** Spelling digits and reading the characters back gives the digits. */
  lemma UnspellSpell(bs: seq<Byte>)
    requires AllDigits(bs)
    ensures DigitChars(Spell(bs)) && Unspell(Spell(bs)) == bs
  {
  }

  /** A spelling without a sign reads back as the digits' value. */
  lemma TextValueSpelled(digits: seq<Byte>)
    requires |digits| >= 1 && AllDigits(digits)
    ensures TextValue(Spell(digits)) == Some(DecimalValue(digits) as int)
  {
    UnspellSpell(digits);
    assert DigitsValue(Spell(digits)) == Some(DecimalValue(digits));
  }

  /** A minus sign before unsigned digits negates the value read back. */
  lemma TextValueNegated(u: string)
    requires DigitsValue(u).Some?
    ensures TextValue("-" + u) == Some(-(DigitsValue(u).value as int))
  {
    SignSplit(u);
  }

  lemma SignSplit(u: string)
    ensures ("-" + u)[0] == '-' && ("-" + u)[1..] == u
  {
  }

  /** `IntText` spells the opcode so that it reads back unchanged. */
  lemma IntTextRoundTrip(n: int)
    ensures TextValue(IntText(n)) == Some(n)
  {
    var digits := DecimalDigits(if n < 0 then -n else n);
    if n < 0 {
      UnspellSpell(digits);
      TextValueNegated(Spell(digits));
    } else {
      TextValueSpelled(digits);
    }
  }

  const UnknownPrefix: string := "Unknown opcode "

  predicate IsUnknownText(e: Explanation)
  {
    e.Text? && |e.text| >= |UnknownPrefix| && e.text[..|UnknownPrefix|] == UnknownPrefix
  }

  const MoveAxes: seq<Axis> := [X, Y, Z, E]
  const HomeAxes: seq<Axis> := [X, Y, Z]

  /** `explain`: a description of the current line. Letters the opcode takes
      but the line lacks are left out of move, home and position texts; the
      dwell text fails without its P value. */
  function Explain(d: Decoder): (r: Explained)
    ensures r.dec.buf == d.buf && r.dec.code == d.code
    ensures Coherent(d) ==> Coherent(r.dec)
    ensures d.code == 20 ==> r.out == Ok(Text("G22 - Use inches"))
    ensures d.code == 21 ==> r.out == Ok(Text("G21 - Use mm"))
    ensures d.code == 90 ==> r.out == Ok(Text("G90 - Use absolute positioning"))
    ensures d.code == 91 ==> r.out == Ok(Text("G91 - Use relative positioning"))
    ensures d.code in {20, 21, 90, 91} ==> r.dec == d
  {
    match d.code
    case 0 => ExplainMove(d)
    case 1 => ExplainMove(d)
    case 4 =>
      var g := Get(d, P);
      Explained(g.dec, match g.value case Ok(v) => Ok(Dwell(v)) case Err(e) => Err(e))
    case 20 => Explained(d, Ok(Text("G22 - Use inches")))
    case 21 => Explained(d, Ok(Text("G21 - Use mm")))
    case 28 => ExplainHome(d)
    case 90 => Explained(d, Ok(Text("G90 - Use absolute positioning")))
    case 91 => Explained(d, Ok(Text("G91 - Use relative positioning")))
    case 92 =>
      var p := Parsed(d);
      Explained(p, Ok(SetPosition(Listed(p.args, MoveAxes))))
    case _ => Explained(d, Ok(Text(UnknownPrefix + IntText(d.code))))
  }

  function ExplainHome(d: Decoder): (r: Explained)
  {
    var p := Parsed(d);
    Explained(p, Ok(Text("G28 - Home " + Marks(Listed(p.args, HomeAxes)))))
  }

  function ExplainMove(d: Decoder): (r: Explained)
  {
    var p := Parsed(d);
    Explained(p, Ok(Move(d.code, Listed(p.args, MoveAxes), p.args.f)))
  }

  /** Only the dwell text can fail, and only for a missing P value. */
  lemma ExplainFails(d: Decoder)
    ensures Explain(d).out.Err? <==> d.code == 4 && Parsed(d).args.p.None?
    ensures Explain(d).out.Err? ==> Explain(d).out.error == ArgumentNotFound(P)
  {
  }

  /** `explain` calls an opcode unknown exactly when `validCode` rejects it,
      and the text it then prints reads back as that opcode. */
  lemma ExplainUnknownIffInvalid(d: Decoder)
    ensures (Explain(d).out.Ok? && IsUnknownText(Explain(d).out.value)) <==> !ValidCode(d.code)
    ensures !ValidCode(d.code) ==>
              TextValue(Explain(d).out.value.text[|UnknownPrefix|..]) == Some(d.code)
  {
    if !ValidCode(d.code) {
      var t := UnknownPrefix + IntText(d.code);
      assert t[..|UnknownPrefix|] == UnknownPrefix;
      assert t[|UnknownPrefix|..] == IntText(d.code);
      IntTextRoundTrip(d.code);
    } else {
      var e := Explain(d).out;
      assert e.Ok? && e.value.Text? ==> e.value.text[0] == 'G' != UnknownPrefix[0];
    }
  }

  /** For a move line, the coordinates `explain` lists are exactly the X, Y, Z
      and E tokens of the line, each with the value of its last occurrence,
      and the feed rate is that of the last F token. */
  lemma ExplainMoveMeaning(d: Decoder, line: seq<Byte>)
    requires SetData(d, line).Ok?
    requires OpcodeOf(line) == 0 || OpcodeOf(line) == 1
    ensures var e := Explain(SetData(d, line).value).out;
            && e.Ok? && e.value.Move?
            && (forall it :: it in e.value.coords <==>
                  it.axis in MoveAxes && SpecAt(line + [SPACE], it.axis, |line| + 1) == Some(it.value))
            && e.value.feed == SpecAt(line + [SPACE], F, |line| + 1)
            && ItemsSorted(e.value.coords)
  {
    ParseArgumentsMeaning(line + [SPACE]);
    AxesSorted();
  }

  /** For a G92 line, the new position lists exactly the X, Y, Z and E tokens
      of the line with their last values, in X, Y, Z, E order; F and P tokens
      are not part of it. */
  lemma ExplainPositionMeaning(d: Decoder, line: seq<Byte>)
    requires SetData(d, line).Ok? && OpcodeOf(line) == 92
    ensures var e := Explain(SetData(d, line).value).out;
            && e.Ok? && e.value.SetPosition?
            && (forall it :: it in e.value.coords <==>
                  it.axis in MoveAxes && SpecAt(line + [SPACE], it.axis, |line| + 1) == Some(it.value))
            && ItemsSorted(e.value.coords)
  {
    ParseArgumentsMeaning(line + [SPACE]);
    AxesSorted();
  }

  /** The letters move and home texts list come in rank order. */
  lemma AxesSorted()
    ensures RankSorted(MoveAxes) && RankSorted(HomeAxes)
  {
  }

  /** The homing text of a decoder that has not parsed its arguments yet. */
  lemma HomeFromSpec(dec: Decoder)
    requires dec.code == 28 && !dec.hasArgs && EndsWhite(dec.buf)
    ensures Explain(dec).out == Ok(Text("G28 - Home " + Marks(Listed(ArgsSpec(dec.buf), HomeAxes))))
  {
    ParseArgumentsMeaning(dec.buf);
    assert Explain(dec) == ExplainHome(dec);
  }

  /** For a homing line, the text lists "X;", "Y;" and "Z;" for exactly the
      axes the line names, in that order. */
  lemma ExplainHomeMeaning(d: Decoder, line: seq<Byte>)
    requires SetData(d, line).Ok? && OpcodeOf(line) == 28
    ensures var s := line + [SPACE];
            var items := Listed(ArgsSpec(s), HomeAxes);
            && Explain(SetData(d, line).value).out == Ok(Text("G28 - Home " + Marks(items)))
            && (forall it :: it in items <==> it.axis in HomeAxes && SpecAt(s, it.axis, |s|) == Some(it.value))
            && ItemsSorted(items)
  {
    var dec := SetData(d, line).value;
    HomeFromSpec(dec);
    ListedSpec(dec.buf, HomeAxes);
    AxesSorted();
  }

  /** The items listed from a buffer's arguments are exactly the tokens' values. */
  lemma ListedSpec(s: seq<Byte>, axes: seq<Axis>)
    ensures forall it :: it in Listed(ArgsSpec(s), axes) <==>
              it.axis in axes && SpecAt(s, it.axis, |s|) == Some(it.value)
  {
    var args := ArgsSpec(s);
    forall it
      ensures it in Listed(args, axes) <==> it.axis in axes && SpecAt(s, it.axis, |s|) == Some(it.value)
    {
      assert args.Get(it.axis) == SpecAt(s, it.axis, |s|);
      if it.axis in axes && SpecAt(s, it.axis, |s|) == Some(it.value) {
        assert it == Item(it.axis, args.Get(it.axis).value);
      }
    }
  }
}
