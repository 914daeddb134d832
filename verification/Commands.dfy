/** Compute commands: written word by word by the host, parsed from the stream by the
  * accelerator's control box. */
module Commands {
  import opened Arith
  import opened Words

  const ARRAY_LENGTH := 5

  datatype Command = Command(size: nat, a: nat, b: nat, c: nat, aRow: nat, aCol: nat, bCol: nat, workId: nat)

  ghost predicate WellTyped(c: Command) {
    && c.size < WORD32 && c.a < WORD32 && c.b < WORD32 && c.c < WORD32
    && c.aRow < 0x1_0000 && c.aCol < 0x1_0000 && c.bCol < 0x1_0000 && c.workId < 0x1_0000
  }

  // -------- the host side --------

  /** Two 16-bit fields in one word. */
  function Halves(high: nat, low: nat): nat {
    Or(And(low, 0xffff), And(high * 0x1_0000 % WORD32, 0xffff_0000))
  }

  lemma {:induction false} Power16()
    ensures Pow2(16) == 0x1_0000
  {
    assert Pow2(4) == 16;
    Pow2Add(4, 4);
    Pow2Add(8, 8);
  }

  lemma {:induction false} HalvesIs(high: nat, low: nat)
    requires high < 0x1_0000 && low < 0x1_0000
    ensures Halves(high, low) == high * 0x1_0000 + low < WORD32
  {
    hide And, Or, Pow2, ShiftRight;
    Power16();
    AndOnes(low, 16);
    var x := high * 0x1_0000;
    AndShifted(x, 0xffff_0000, Pow2(16) - 1, 16);
    AndOnes(high, 16);
    OrDisjoint(low, x, high, 16);
  }

  function Issued(c: Command): seq<nat> {
    [c.size, c.a, c.b, c.c, Halves(c.aRow, c.aCol), Halves(c.bCol, c.workId)]
  }

  function IssuedAll(cs: seq<Command>): seq<nat> {
    if cs == [] then [] else Issued(cs[0]) + IssuedAll(cs[1..])
  }

  // -------- the accelerator side --------

  /** The values handed to the kernel, as C ints. */
  datatype Arguments = Arguments(a: int, b: int, c: int, aRow: int, aCol: int, bCol: int, workId: int)

  /** Starved: the parser waits for a word that has not come. Overrun: it is about to write
    * past the end of its five-word array. */
  datatype Outcome = Parsed(args: Arguments) | Starved | Overrun

  function Signed(x: nat): int {
    if x < 0x8000_0000 then x else x - WORD32
  }

  lemma {:induction false} SignedKeepsWord(x: nat)
    requires x < WORD32
    ensures -0x8000_0000 <= Signed(x) < 0x8000_0000 && Signed(x) % WORD32 == x
  {
    if x >= 0x8000_0000 {
      DivModUnique(Signed(x), WORD32, -1, x);
    }
  }

  function ArgumentsOf(w: seq<nat>): Arguments
    requires |w| == ARRAY_LENGTH
  {
    Arguments(Signed(w[0]), Signed(w[1]), Signed(w[2]),
              Signed(w[3] / 0x1_0000), Signed(And(w[3], 0xffff)),
              Signed(w[4] / 0x1_0000), Signed(And(w[4], 0xffff)))
  }

  /** How many words follow the size word before the loop's unsigned comparison fails. */
  function Follows(size: nat): nat
    requires size < WORD32
  {
    (size + WORD32 - 2) % WORD32 + 1
  }

  function Zeros(n: nat): (s: seq<nat>)
    ensures |s| == n
  {
    if n == 0 then [] else [0] + Zeros(n - 1)
  }

  predicate AreWords(s: seq<nat>) {
    forall i :: 0 <= i < |s| ==> s[i] < WORD32
  }

  /** What one call does to the stream: the result, and the words left unread. */
  function Parse(stream: seq<nat>): (Outcome, seq<nat>)
    requires stream != [] ==> stream[0] < WORD32
  {
    if stream == [] then (Starved, [])
    else
      var n := Follows(stream[0]);
      if n <= ARRAY_LENGTH then
        if |stream| < 1 + n then (Starved, [])
        else (Parsed(ArgumentsOf(stream[1..1 + n] + Zeros(ARRAY_LENGTH - n))), stream[1 + n..])
      else if |stream| <= 1 + ARRAY_LENGTH then (Starved, [])
      else (Overrun, stream[2 + ARRAY_LENGTH..])
  }

  lemma {:induction false} FollowsIs(size: nat)
    requires size < WORD32
    ensures size >= 2 ==> Follows(size) == size - 1
    ensures size < 2 ==> Follows(size) == WORD32 - 1 + size
  {
  }

  ghost predicate Received(o: Outcome, c: Command) {
    && o.Parsed?
    && o.args.a % WORD32 == c.a && o.args.b % WORD32 == c.b && o.args.c % WORD32 == c.c
    && o.args.aRow == c.aRow && o.args.aCol == c.aCol && o.args.bCol == c.bCol && o.args.workId == c.workId
  }

  lemma {:induction false} HalvesRoundTrip(high: nat, low: nat)
    requires high < 0x1_0000 && low < 0x1_0000
    ensures Signed(Halves(high, low) / 0x1_0000) == high
    ensures Signed(And(Halves(high, low), 0xffff)) == low
  {
    hide And, Or, Halves;
    HalvesIs(high, low);
    Power16();
    AndOnes(Halves(high, low), 16);
  }

  lemma {:induction false} ArgumentsReceived(c: Command)
    requires WellTyped(c)
    ensures Received(Parsed(ArgumentsOf(Issued(c)[1..])), c)
  {
    hide And, Halves, Signed;
    SignedKeepsWord(c.a);
    SignedKeepsWord(c.b);
    SignedKeepsWord(c.c);
    HalvesRoundTrip(c.aRow, c.aCol);
    HalvesRoundTrip(c.bCol, c.workId);
  }

  /** An issued command is parsed back, with exactly the words behind it left over, if and only
    * if its size field is six: the writer sends six words whatever the field says. */
  lemma {:induction false} ParseIssuedExactly(c: Command, rest: seq<nat>)
    requires WellTyped(c)
    ensures Received(Parse(Issued(c) + rest).0, c) && Parse(Issued(c) + rest).1 == rest <==> c.size == 6
  {
    hide And, Halves, Signed, Received, ArgumentsOf, Follows;
    FollowsIs(c.size);
    var stream := Issued(c) + rest;
    if c.size == 6 {
      ArgumentsReceived(c);
      assert stream[1..6] + Zeros(0) == Issued(c)[1..];
      assert stream[6..] == rest;
    } else if Follows(c.size) <= ARRAY_LENGTH {
      assert |Parse(stream).1| > |rest|;
    } else {
      NotReceived(Parse(stream).0, c);
    }
  }

  lemma {:induction false} NotReceived(o: Outcome, c: Command)
    requires !o.Parsed?
    ensures !Received(o, c)
  {
  }

  /** The six words of a command: size, base addresses, then the dimensions in pairs. */
  lemma {:induction false} IssuedWords(c: Command)
    requires WellTyped(c)
    ensures Issued(c) == [c.size, c.a, c.b, c.c, c.aRow * 0x1_0000 + c.aCol, c.bCol * 0x1_0000 + c.workId]
  {
    hide Halves;
    HalvesIs(c.aRow, c.aCol);
    HalvesIs(c.bCol, c.workId);
  }

  /** Word k of a command of the given size; the parser's array starts out zero. */
  function WordOf(stream: seq<nat>, size: nat, k: nat): nat
    requires size <= |stream|
  {
    if k < size then stream[k] else 0
  }

  /** What the parser makes of any command it can take, short ones included. */
  lemma {:induction false} ParsedWords(stream: seq<nat>)
    requires AreWords(stream) && stream != [] && 2 <= stream[0] <= 6 && stream[0] <= |stream|
    ensures var (o, rest) := Parse(stream);
            && o.Parsed? && rest == stream[stream[0]..]
            && var args, size := o.args, stream[0];
            && args.a == Signed(WordOf(stream, size, 1)) && args.b == Signed(WordOf(stream, size, 2))
            && args.c == Signed(WordOf(stream, size, 3))
            && args.aRow == WordOf(stream, size, 4) / 0x1_0000 && args.aCol == WordOf(stream, size, 4) % 0x1_0000
            && args.bCol == WordOf(stream, size, 5) / 0x1_0000 && args.workId == WordOf(stream, size, 5) % 0x1_0000
  {
    hide And;
    var size := stream[0];
    FollowsIs(size);
    var w := stream[1..size] + Zeros(6 - size);
    forall k | 1 <= k < 6 ensures w[k - 1] == WordOf(stream, size, k) < WORD32 {
      if k >= size {
        ZerosAt(6 - size, k - size);
      }
    }
    assert w[4 - 1] == WordOf(stream, size, 4) && w[5 - 1] == WordOf(stream, size, 5);
    LowHalf(w[3]);
    LowHalf(w[4]);
  }

  lemma {:induction false} ZerosAt(n: nat, k: nat)
    requires k < n
    ensures Zeros(n)[k] == 0
  {
    if k > 0 {
      ZerosAt(n - 1, k - 1);
    }
  }

  lemma {:induction false} LowHalf(x: nat)
    requires x < WORD32
    ensures And(x, 0xffff) == x % 0x1_0000 && x / 0x1_0000 < 0x1_0000
  {
    hide And;
    Power16();
    AndOnes(x, 16);
  }

  /** The array is overrun if and only if the size word is outside 2..6 and six words follow,
    * the sixth being the one that does not fit; a parser that starves has read all there was. */
  lemma {:induction false} OverrunExactly(stream: seq<nat>)
    requires stream != [] && stream[0] < WORD32
    ensures Parse(stream).0 == Overrun <==> !(2 <= stream[0] <= 6) && |stream| >= 7
    ensures Parse(stream).0.Parsed? <==> 2 <= stream[0] <= 6 && |stream| >= stream[0]
    ensures Parse(stream).0 == Starved ==> Parse(stream).1 == []
    ensures Parse(stream).0 == Overrun ==> Parse(stream).1 == stream[7..]
  {
    hide ArgumentsOf, Follows;
    FollowsIs(stream[0]);
  }

  lemma {:induction false} ParseKeepsWords(stream: seq<nat>)
    requires AreWords(stream)
    ensures AreWords(Parse(stream).1)
  {
    hide ArgumentsOf, Follows;
  }

  /** n calls in a row; the stream they start from must carry 32-bit words. */
  function ParseMany(stream: seq<nat>, n: nat): (seq<Outcome>, seq<nat>)
    requires AreWords(stream)
    decreases n
  {
    if n == 0 then ([], stream)
    else
      var (o, rest) := Parse(stream);
      ParseKeepsWords(stream);
      var (os, left) := ParseMany(rest, n - 1);
      ([o] + os, left)
  }

  lemma {:induction false} IssuedTyped(c: Command)
    requires WellTyped(c)
    ensures AreWords(Issued(c))
  {
    hide Halves;
    HalvesIs(c.aRow, c.aCol);
    HalvesIs(c.bCol, c.workId);
  }

  lemma {:induction false} IssuedAllTyped(cs: seq<Command>)
    requires forall c :: c in cs ==> WellTyped(c)
    ensures AreWords(IssuedAll(cs))
  {
    hide Issued;
    if cs != [] {
      IssuedTyped(cs[0]);
      IssuedAllTyped(cs[1..]);
    }
  }

  /** Decoding any concatenation of issued commands recovers exactly those commands in order,
    * and leaves exactly what followed them. */
  lemma {:induction false} DecodeRecoversAll(cs: seq<Command>, rest: seq<nat>)
    requires forall c :: c in cs ==> WellTyped(c) && c.size == 6
    requires AreWords(rest)
    ensures AreWords(IssuedAll(cs) + rest)
    ensures var (os, left) := ParseMany(IssuedAll(cs) + rest, |cs|);
            && left == rest && |os| == |cs|
            && forall i :: 0 <= i < |cs| ==> Received(os[i], cs[i])
  {
    hide Issued, Received, WellTyped, Parse;
    IssuedAllTyped(cs);
    if cs == [] {
      assert IssuedAll(cs) + rest == rest;
    } else {
      var more := IssuedAll(cs[1..]) + rest;
      assert IssuedAll(cs) + rest == Issued(cs[0]) + more;
      ParseIssuedExactly(cs[0], more);
      DecodeRecoversAll(cs[1..], rest);
    }
  }

  // -------- the stream between them --------

  lemma {:induction false} OneMoreRead(words: seq<nat>, k: nat)
    requires k < |words|
    ensures words[k..][1..] == words[k + 1..] && words[k..][0] == words[k]
  {
  }

  lemma {:induction false} Dropped(words: seq<nat>, k: nat)
    requires k < |words|
    ensures words[1..][k..] == words[k + 1..]
  {
  }

  /** The array after one more word. */
  lemma {:induction false} WordStored(words: seq<nat>, k: nat)
    requires k < ARRAY_LENGTH && k < |words|
    ensures (words[..k] + Zeros(ARRAY_LENGTH - k))[k := words[k]] == words[..k + 1] + Zeros(ARRAY_LENGTH - (k + 1))
  {
    assert Zeros(ARRAY_LENGTH - k) == [0] + Zeros(ARRAY_LENGTH - k - 1);
  }

  class CommandFifo {
    var words: seq<nat>

    constructor ()
      ensures words == []
    {
      words := [];
    }

    method Write32(value: nat)
      modifies this
      ensures words == old(words) + [value]
    {
      words := words + [value];
    }

    method Issue(c: Command)
      modifies this
      ensures words == old(words) + Issued(c)
    {
      hide Halves;
      Write32(c.size);
      Write32(c.a);
      Write32(c.b);
      Write32(c.c);
      var element := Halves(c.aRow, c.aCol);
      Write32(element);
      element := Halves(c.bCol, c.workId);
      Write32(element);
    }

    method ParseCommand() returns (r: Outcome)
      requires words != [] ==> words[0] < WORD32
      modifies this
      ensures (r, words) == Parse(old(words))
    {
      hide ArgumentsOf;
      if words == [] {
        return Starved;
      }
      var cmdArray := new nat[ARRAY_LENGTH](_ => 0);
      var size := words[0];
      words := words[1..];
      ghost var start := words;
      var received := 0;
      while received <= (size + WORD32 - 2) % WORD32
        invariant 0 <= received <= ARRAY_LENGTH && received <= Follows(size) && received <= |start|
        invariant words == start[received..]
        invariant cmdArray[..] == start[..received] + Zeros(ARRAY_LENGTH - received)
        decreases Follows(size) - received
      {
        if words == [] {
          return Starved;
        }
        var word := words[0];
        words := words[1..];
        OneMoreRead(start, received);
        if received >= ARRAY_LENGTH {
          Dropped(old(words), received + 1);
          return Overrun;
        }
        ghost var before := cmdArray[..];
        cmdArray[received] := word;
        assert cmdArray[..] == before[received := word];
        WordStored(start, received);
        received := received + 1;
      }
      assert start[..received] == old(words)[1..1 + received];
      Dropped(old(words), received);
      r := Parsed(ArgumentsOf(cmdArray[..]));
    }
  }
}
