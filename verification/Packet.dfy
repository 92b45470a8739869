// Packets of the remote debugging protocol, and hexadecimal.

module Packets {
  import opened Bytes
  import opened Options

  const DOLLAR: Byte := 0x24
  const HASH: Byte := 0x23
  const PLUS: Byte := 0x2b
  const MINUS: Byte := 0x2d
  const BUFMAX: nat := 2048

  // ---------------------------------------------------------------- hexadecimal

  /** `hexchars`. */
  function HexChar(n: int): (c: Byte)
    requires 0 <= n < 16
    ensures c < 128
  {
    if n < 10 then 0x30 + n else 0x61 + n - 10
  }

  function Hex(c: Byte): int {
    if 0x61 <= c <= 0x66 then c - 0x61 + 10
    else if 0x30 <= c <= 0x39 then c - 0x30
    else if 0x41 <= c <= 0x46 then c - 0x41 + 10
    else -1
  }

  lemma HexOfChar(n: int)
    requires 0 <= n < 16
    ensures Hex(HexChar(n)) == n
  {
  }

  function ToHex(mem: seq<Byte>): (buf: seq<Byte>)
    ensures |buf| == 2 * |mem|
  {
    if mem == [] then []
    else
      var ch := mem[|mem| - 1];
      ToHex(mem[..|mem| - 1]) + [HexChar(ch / 16), HexChar(ch % 16)]
  }

  /** The byte that two characters make; one that is not a digit counts as all ones. */
  function Pair(hi: Byte, lo: Byte): Byte {
    if Hex(lo) < 0 then 255 else if Hex(hi) < 0 then 0xf0 + Hex(lo) else 16 * Hex(hi) + Hex(lo)
  }

  function FromHex(buf: seq<Byte>, count: nat): (mem: seq<Byte>)
    requires 2 * count <= |buf|
    ensures |mem| == count
  {
    if count == 0 then []
    else FromHex(buf, count - 1) + [Pair(buf[2 * count - 2], buf[2 * count - 1])]
  }

  method MemToHex(mem: seq<Byte>) returns (buf: seq<Byte>)
    ensures buf == ToHex(mem)
  {
    buf := [];
    var i := 0;
    while i < |mem|
      invariant 0 <= i <= |mem| && buf == ToHex(mem[..i])
    {
      assert mem[..i + 1][..i] == mem[..i];
      buf := buf + [HexChar(mem[i] / 16)] + [HexChar(mem[i] % 16)];
      i := i + 1;
    }
    assert mem[..i] == mem;
  }

  method HexToMem(buf: seq<Byte>, count: nat) returns (mem: seq<Byte>)
    requires 2 * count <= |buf|
    ensures mem == FromHex(buf, count)
  {
    mem := [];
    var i := 0;
    while i < count
      invariant 0 <= i <= count && mem == FromHex(buf, i)
    {
      mem := mem + [Pair(buf[2 * i], buf[2 * i + 1])];
      i := i + 1;
    }
  }

  lemma {:induction false} ToHexAt(mem: seq<Byte>, i: nat)
    requires i < |mem|
    ensures ToHex(mem)[2 * i] == HexChar(mem[i] / 16) && ToHex(mem)[2 * i + 1] == HexChar(mem[i] % 16)
  {
    if i < |mem| - 1 {
      ToHexAt(mem[..|mem| - 1], i);
    }
  }

  lemma {:induction false} FromHexAt(buf: seq<Byte>, count: nat, i: nat)
    requires 2 * count <= |buf| && i < count
    ensures FromHex(buf, count)[i] == Pair(buf[2 * i], buf[2 * i + 1])
  {
    if i < count - 1 {
      FromHexAt(buf, count - 1, i);
    }
  }

  lemma PairOfChars(b: Byte)
    ensures Pair(HexChar(b / 16), HexChar(b % 16)) == b
  {
    HexOfChar(b / 16);
    HexOfChar(b % 16);
  }

  /** Reading back what was written gives the same bytes. */
  lemma HexRoundTrip(mem: seq<Byte>)
    ensures FromHex(ToHex(mem), |mem|) == mem
  {
    var buf := ToHex(mem);
    forall i | 0 <= i < |mem| ensures FromHex(buf, |mem|)[i] == mem[i] {
      ToHexAt(mem, i);
      FromHexAt(buf, |mem|, i);
      PairOfChars(mem[i]);
    }
  }

  function Lower(c: Byte): Byte {
    if 0x41 <= c <= 0x46 then c + 0x20 else c
  }

  lemma PairBack(hi: Byte, lo: Byte)
    ensures HexChar(Pair(hi, lo) / 16) == Lower(hi) && HexChar(Pair(hi, lo) % 16) == Lower(lo) <==>
      Hex(hi) >= 0 && Hex(lo) >= 0
  {
  }

  /** Writing back what was read gives the same pair of digits, in lower case, if and only
      if both are digits. */
  lemma HexRoundTripBack(buf: seq<Byte>, count: nat, i: nat)
    requires |buf| == 2 * count && i < count
    ensures var again := ToHex(FromHex(buf, count));
      again[2 * i] == Lower(buf[2 * i]) && again[2 * i + 1] == Lower(buf[2 * i + 1]) <==>
      Hex(buf[2 * i]) >= 0 && Hex(buf[2 * i + 1]) >= 0
  {
    hide Pair, Hex, HexChar, Lower;
    ToHexAt(FromHex(buf, count), i);
    FromHexAt(buf, count, i);
    PairBack(buf[2 * i], buf[2 * i + 1]);
  }

  // ---------------------------------------------------------------- frames

  function Checksum(data: seq<Byte>): Byte {
    if data == [] then 0 else (Checksum(data[..|data| - 1]) + data[|data| - 1]) % 256
  }

  /** The end of a frame. */
  function Tail(sum: Byte): seq<Byte> {
    [HASH, HexChar(sum / 16), HexChar(sum % 16)]
  }

  /** What `PutPacket` sends, each time it tries. */
  function Framed(data: seq<Byte>): seq<Byte> {
    [DOLLAR] + (data + Tail(Checksum(data)))
  }

  lemma Regroup(a: seq<Byte>, b: seq<Byte>, c: seq<Byte>)
    ensures (a + b) + c == a + (b + c)
  {
  }

  /** Where `GetPacket` is. */
  datatype State =
    | Idle
    | Body(data: seq<Byte>)
    | Sum1(data: seq<Byte>)
    | Sum2(data: seq<Byte>, digit: int)
    | Done(data: seq<Byte>)

  function Seven(c: Byte): Byte {
    c % 128
  }

  /** The effect of one character, and the reply to it. A body that fills the buffer is
      given up. */
  function Step(st: State, c: Byte): (State, seq<Byte>)
    requires !st.Done?
  {
    match st
    case Idle => (if c == DOLLAR then Body([]) else Idle, [])
    case Body(data) =>
      if c == DOLLAR then (Body([]), [])
      else if c == HASH then (Sum1(data), [])
      else if |data| + 1 < BUFMAX then (Body(data + [c]), [])
      else (Idle, [])
    case Sum1(data) => (Sum2(data, Hex(c)), [])
    case Sum2(data, digit) =>
      if (16 * digit + Hex(c)) % 256 == Checksum(data) then (Done(data), [PLUS]) else (Idle, [MINUS])
  }

  /** The state at the end of the input or of the packet, the input behind the packet, and
      the replies. */
  datatype Outcome = Outcome(st: State, rest: seq<Byte>, replies: seq<Byte>)

  function Receive(st: State, input: seq<Byte>, replies: seq<Byte>): Outcome
    decreases |input|
  {
    if st.Done? || input == [] then Outcome(st, input, replies)
    else
      var (next, reply) := Step(st, Seven(input[0]));
      Receive(next, input[1..], replies + reply)
  }

  lemma ReceiveOne(st: State, c: Byte, input: seq<Byte>, replies: seq<Byte>)
    requires !st.Done?
    ensures var (next, reply) := Step(st, Seven(c));
      Receive(st, [c] + input, replies) == Receive(next, input, replies + reply)
  {
    assert ([c] + input)[1..] == input;
  }

  /** The eighth bit of a character does not matter. */
  lemma {:induction false} ParityIgnored(st: State, input: seq<Byte>, input': seq<Byte>, replies: seq<Byte>)
    requires |input'| == |input| && forall i :: 0 <= i < |input| ==> input'[i] % 128 == input[i] % 128
    ensures var o, o' := Receive(st, input, replies), Receive(st, input', replies);
      o'.st == o.st && o'.replies == o.replies && |o'.rest| == |o.rest|
    decreases |input|
  {
    if !st.Done? && input != [] {
      var (next, reply) := Step(st, input[0] % 128);
      hide Step;
      ParityIgnored(next, input[1..], input'[1..], replies + reply);
    }
  }

  lemma ReceiveDone(data: seq<Byte>, input: seq<Byte>, replies: seq<Byte>)
    ensures Receive(Done(data), input, replies) == Outcome(Done(data), input, replies)
  {
  }

  /** Noise before a packet is skipped. */
  lemma {:induction false} SkipsNoise(noise: seq<Byte>, input: seq<Byte>, replies: seq<Byte>)
    requires forall i :: 0 <= i < |noise| ==> Seven(noise[i]) != DOLLAR
    ensures Receive(Idle, noise + input, replies) == Receive(Idle, input, replies)
    decreases |noise|
  {
    if noise == [] {
      assert noise + input == input;
    } else {
      assert noise + input == [noise[0]] + (noise[1..] + input);
      ReceiveOne(Idle, noise[0], noise[1..] + input, replies);
      assert replies + [] == replies;
      SkipsNoise(noise[1..], input, replies);
    }
  }

  /** What can be sent as it is: 7-bit characters but NUL, '$' and '#'. */
  predicate Plain(data: seq<Byte>) {
    forall i :: 0 <= i < |data| ==> 0 < data[i] < 128 && data[i] != DOLLAR && data[i] != HASH
  }

  lemma {:induction false} TakesBody(before: seq<Byte>, data: seq<Byte>, input: seq<Byte>, replies: seq<Byte>)
    requires Plain(data) && |before| + |data| < BUFMAX
    ensures Receive(Body(before), data + input, replies) == Receive(Body(before + data), input, replies)
    decreases |data|
  {
    if data == [] {
      assert data + input == input && before + data == before;
    } else {
      assert data + input == [data[0]] + (data[1..] + input);
      ReceiveOne(Body(before), data[0], data[1..] + input, replies);
      assert replies + [] == replies;
      TakesBody(before + [data[0]], data[1..], input, replies);
      assert before + [data[0]] + data[1..] == before + data;
    }
  }

  /** A body with a checksum behind it is accepted if and only if the checksum is its own. */
  lemma ChecksBody(data: seq<Byte>, sum: Byte, input: seq<Byte>, replies: seq<Byte>)
    ensures Receive(Body(data), Tail(sum) + input, replies) ==
        if sum == Checksum(data) then Outcome(Done(data), input, replies + [PLUS])
        else Receive(Idle, input, replies + [MINUS])
  {
    var h, l := HexChar(sum / 16), HexChar(sum % 16);
    HexOfChar(sum / 16);
    HexOfChar(sum % 16);
    assert Seven(HASH) == HASH && Seven(h) == h && Seven(l) == l;
    assert Tail(sum) + input == [HASH] + ([h] + ([l] + input));
    assert replies + [] == replies;
    hide HexChar, Hex, Checksum, Tail;
    ReceiveOne(Body(data), HASH, [h] + ([l] + input), replies);
    ReceiveOne(Sum1(data), h, [l] + input, replies);
    ReceiveOne(Sum2(data, sum / 16), l, input, replies);
    assert (16 * (sum / 16) + sum % 16) % 256 == sum;
  }

  /** A frame with a checksum that may not be the body's. */
  lemma TakesFrame(data: seq<Byte>, sum: Byte, input: seq<Byte>, replies: seq<Byte>)
    requires Plain(data) && |data| < BUFMAX
    ensures Receive(Idle, [DOLLAR] + (data + Tail(sum)) + input, replies) ==
        if sum == Checksum(data) then Outcome(Done(data), input, replies + [PLUS])
        else Receive(Idle, input, replies + [MINUS])
  {
    hide Tail, Checksum, Receive, Plain;
    Regroup([DOLLAR], data + Tail(sum), input);
    Regroup(data, Tail(sum), input);
    ReceiveOne(Idle, DOLLAR, data + (Tail(sum) + input), replies);
    assert replies + [] == replies && Seven(DOLLAR) == DOLLAR;
    TakesBody([], data, Tail(sum) + input, replies);
    assert [] + data == data;
    ChecksBody(data, sum, input, replies);
  }

  /** Behind any noise, a packet of plain characters that fits the buffer is received as it
      was sent, and acknowledged. */
  lemma PacketRoundTrip(noise: seq<Byte>, data: seq<Byte>, input: seq<Byte>, replies: seq<Byte>)
    requires forall i :: 0 <= i < |noise| ==> Seven(noise[i]) != DOLLAR
    requires Plain(data) && |data| < BUFMAX
    ensures Receive(Idle, noise + (Framed(data) + input), replies) == Outcome(Done(data), input, replies + [PLUS])
  {
    hide Tail, Checksum, Receive, Plain;
    SkipsNoise(noise, Framed(data) + input, replies);
    TakesFrame(data, Checksum(data), input, replies);
  }

  lemma {:induction false} GivesUp(before: seq<Byte>, data: seq<Byte>, input: seq<Byte>, replies: seq<Byte>)
    requires Plain(data) && |before| < BUFMAX && |before| + |data| == BUFMAX
    ensures Receive(Body(before), data + input, replies) == Receive(Idle, input, replies)
    decreases |data|
  {
    assert data + input == [data[0]] + (data[1..] + input);
    ReceiveOne(Body(before), data[0], data[1..] + input, replies);
    assert replies + [] == replies;
    if |data| > 1 {
      GivesUp(before + [data[0]], data[1..], input, replies);
    } else {
      assert data[1..] + input == input;
    }
  }

  /** A packet that fills the buffer is given up without a reply, and the rest of its frame
      is taken for noise. So a plain packet is received if and only if it is shorter. */
  lemma TooLong(data: seq<Byte>, input: seq<Byte>, replies: seq<Byte>)
    requires Plain(data) && |data| >= BUFMAX
    ensures Receive(Idle, Framed(data) + input, replies) == Receive(Idle, input, replies)
  {
    var sum := Checksum(data);
    var body, rest := data[..BUFMAX], data[BUFMAX..] + Tail(sum);
    assert forall i :: 0 <= i < |Tail(sum)| ==> Seven(Tail(sum)[i]) != DOLLAR;
    assert Plain(body) && forall i :: 0 <= i < |rest| ==> Seven(rest[i]) != DOLLAR;
    assert data + Tail(sum) == body + rest;
    hide Tail, Checksum, Receive, Plain;
    Regroup([DOLLAR], body + rest, input);
    Regroup(body, rest, input);
    ReceiveOne(Idle, DOLLAR, body + (rest + input), replies);
    assert replies + [] == replies && Seven(DOLLAR) == DOLLAR;
    GivesUp([], body, rest + input, replies);
    SkipsNoise(rest, input, replies);
  }

  /** The checksum is the sum of the characters modulo 256. */
  lemma {:induction false} ChecksumAdds(a: seq<Byte>, b: seq<Byte>)
    ensures Checksum(a + b) == (Checksum(a) + Checksum(b)) % 256
    ensures |a| == 1 ==> Checksum(a) == a[0]
    decreases |b|
  {
    if |a| == 1 {
      assert a[..0] == [];
    }
    if b == [] {
      assert a + b == a;
    } else {
      var n := |b| - 1;
      assert (a + b)[..|a| + n] == a + b[..n];
      ChecksumAdds(a, b[..n]);
      SumsAdd(Checksum(a), Checksum(b[..n]), b[n]);
    }
  }

  lemma SumsAdd(a: int, b: int, c: int)
    ensures ((a + b) % 256 + c) % 256 == (a + (b + c) % 256) % 256
  {
  }

  lemma ChecksumAt(data: seq<Byte>, i: nat, c: Byte)
    requires i < |data|
    ensures Checksum(data[i := c]) == (Checksum(data) + (c - data[i])) % 256
  {
    hide Checksum;
    var a, b := data[..i], data[i + 1..];
    assert data == a + ([data[i]] + b) && data[i := c] == a + ([c] + b);
    ChecksumAdds(a, [data[i]] + b);
    ChecksumAdds([data[i]], b);
    ChecksumAdds(a, [c] + b);
    ChecksumAdds([c], b);
    SumsMove(Checksum(a), Checksum(b), data[i], c);
  }

  lemma SumsMove(a: int, b: int, x: int, y: int)
    ensures (a + (y + b) % 256) % 256 == ((a + (x + b) % 256) % 256 + (y - x)) % 256
  {
  }

  /** The frame of "OK". */
  lemma FrameOfOk()
    ensures Framed([0x4f, 0x4b]) == [0x24, 0x4f, 0x4b, 0x23, 0x39, 0x61]
  {
    var data: seq<Byte> := [0x4f, 0x4b];
    assert data[..1] == [0x4f] && [0x4f][..0] == [];
    assert Checksum(data) == 0x9a;
  }

  lemma ChangedSum(data: seq<Byte>, i: nat, c: Byte)
    requires i < |data| && c != data[i]
    ensures Checksum(data[i := c]) != Checksum(data)
  {
    ChecksumAt(data, i, c);
    hide Checksum;
  }

  /** What follows the character at `i` of the body in the frame. */
  function Follows(data: seq<Byte>, i: nat): seq<Byte>
    requires i < |data|
  {
    data[i + 1..] + Tail(Checksum(data))
  }

  /** What is taken for the packet if the character at `i` has become `c`. */
  function Garbled(data: seq<Byte>, i: nat, c: Byte): seq<Byte>
    requires i < |data|
  {
    if c == HASH then data[..i] else if c == DOLLAR then data[i + 1..] else data[i := c]
  }

  /** The changed frame passes for another packet: the change has made a '#' in front of
      two characters that spell the checksum of what is before it, or a '$' in front of
      characters that add up to the checksum of the whole packet. */
  predicate Fooled(data: seq<Byte>, i: nat, c: Byte)
    requires i < |data|
  {
    if c == HASH then
      (16 * Hex(Follows(data, i)[0]) + Hex(Follows(data, i)[1])) % 256 == Checksum(data[..i])
    else
      c == DOLLAR && Checksum(data[i + 1..]) == Checksum(data)
  }

  /** The receiver behind the changed character. */
  lemma UpToChange(data: seq<Byte>, i: nat, c: Byte, input: seq<Byte>, replies: seq<Byte>)
    requires Plain(data) && |data| < BUFMAX && i < |data|
    ensures Receive(Idle, Framed(data)[i + 1 := c] + input, replies)
         == Receive(Step(Body(data[..i]), Seven(c)).0, Follows(data, i) + input, replies)
  {
    var rest := Follows(data, i);
    var before := data[..i];
    assert Plain(before);
    assert data[i := c] + Tail(Checksum(data)) == before + ([c] + rest);
    ChangedFrame(data, i, c);
    hide Tail, Checksum, Receive, Plain, Framed, Follows;
    assert [DOLLAR] + (before + ([c] + rest)) + input == [DOLLAR] + (before + ([c] + (rest + input)));
    ReceiveOne(Idle, DOLLAR, before + ([c] + (rest + input)), replies);
    assert replies + [] == replies && Seven(DOLLAR) == DOLLAR && [] + before == before;
    TakesBody([], before, [c] + (rest + input), replies);
    ReceiveOne(Body(before), c, rest + input, replies);
  }

  /** A frame that goes on behind a '$', or behind a character of the body. */
  lemma BodyGoesOn(before: seq<Byte>, data: seq<Byte>, sum: Byte, input: seq<Byte>, replies: seq<Byte>)
    requires Plain(data) && |before| + |data| < BUFMAX
    ensures Receive(Body(before), data + Tail(sum) + input, replies) ==
        if sum == Checksum(before + data) then Outcome(Done(before + data), input, replies + [PLUS])
        else Receive(Idle, input, replies + [MINUS])
  {
    hide Tail, Checksum, Receive, Plain;
    Regroup(data, Tail(sum), input);
    TakesBody(before, data, Tail(sum) + input, replies);
    ChecksBody(before + data, sum, input, replies);
  }

  lemma NoStartBehind(data: seq<Byte>, i: nat)
    requires Plain(data) && i < |data|
    ensures var rest := Follows(data, i);
      |rest| >= 3 && forall j :: 0 <= j < |rest| ==> Seven(rest[j]) == rest[j] != DOLLAR
  {
    hide Checksum;
  }

  /** A frame that is cut short by a '#'. */
  lemma CutShort(before: seq<Byte>, rest: seq<Byte>, input: seq<Byte>, replies: seq<Byte>)
    requires |rest| >= 3 && forall j :: 0 <= j < |rest| ==> Seven(rest[j]) == rest[j] != DOLLAR
    ensures Receive(Sum1(before), rest + input, replies) ==
        if (16 * Hex(rest[0]) + Hex(rest[1])) % 256 == Checksum(before)
        then Outcome(Done(before), rest[2..] + input, replies + [PLUS])
        else Receive(Idle, input, replies + [MINUS])
  {
    hide Checksum, Hex, Receive;
    assert rest + input == [rest[0]] + ([rest[1]] + (rest[2..] + input));
    ReceiveOne(Sum1(before), rest[0], [rest[1]] + (rest[2..] + input), replies);
    assert replies + [] == replies;
    ReceiveOne(Sum2(before, Hex(rest[0])), rest[1], rest[2..] + input, replies);
    SkipsNoise(rest[2..], input, replies + [MINUS]);
    ReceiveDone(before, rest[2..] + input, replies + [PLUS]);
  }

  /** What becomes of a frame in which one character of the body has been changed on the
      way, whatever it has been changed into. */
  lemma ErrorOutcome(data: seq<Byte>, i: nat, c: Byte, input: seq<Byte>, replies: seq<Byte>)
    requires Plain(data) && |data| < BUFMAX && i < |data| && Seven(c) != data[i]
    ensures var o := Receive(Idle, Framed(data)[i + 1 := c] + input, replies);
      if Fooled(data, i, Seven(c)) then
        o.st == Done(Garbled(data, i, Seven(c))) && o.replies == replies + [PLUS]
      else o == Receive(Idle, input, replies + [MINUS])
  {
    hide Tail, Checksum, Receive, Plain, Framed, Hex;
    UpToChange(data, i, c, input, replies);
    PlainBehind(data, i);
    var seven, sum := Seven(c), Checksum(data);
    if seven == HASH {
      hide Follows;
      NoStartBehind(data, i);
      CutShort(data[..i], Follows(data, i), input, replies);
    } else if seven == DOLLAR {
      BodyGoesOn([], data[i + 1..], sum, input, replies);
      assert [] + data[i + 1..] == data[i + 1..];
    } else {
      ChangedSum(data, i, seven);
      BodyGoesOn(data[..i] + [seven], data[i + 1..], sum, input, replies);
      assert data[..i] + [seven] + data[i + 1..] == data[i := seven];
    }
  }

  lemma PlainBehind(data: seq<Byte>, i: nat)
    requires Plain(data) && i < |data|
    ensures Plain(data[i + 1..])
  {
  }

  /** A packet in which one character of the body has been changed on the way is refused,
      and received when it is sent again, if and only if the changed frame does not pass
      for another packet. */
  lemma ErrorIsRepaired(data: seq<Byte>, i: nat, c: Byte, input: seq<Byte>, replies: seq<Byte>)
    requires Plain(data) && |data| < BUFMAX && i < |data| && Seven(c) != data[i]
    ensures var o := Receive(Idle, Framed(data)[i + 1 := c] + (Framed(data) + input), replies);
      && (o == Outcome(Done(data), input, replies + [MINUS] + [PLUS]) <==> !Fooled(data, i, Seven(c)))
      && (Fooled(data, i, Seven(c)) ==> o.st.Done? && |o.st.data| < |data|)
  {
    hide Tail, Checksum, Receive, Plain, Framed, Fooled;
    ErrorOutcome(data, i, c, Framed(data) + input, replies);
    PacketRoundTrip([], data, input, replies + [MINUS]);
    assert [] + (Framed(data) + input) == Framed(data) + input;
    ShorterIfFooled(data, i, Seven(c));
  }

  lemma ShorterIfFooled(data: seq<Byte>, i: nat, c: Byte)
    requires i < |data|
    ensures Fooled(data, i, c) ==> |Garbled(data, i, c)| < |data|
  {
    hide Tail, Checksum, Hex;
  }

  /** The error that is not noticed: "x00" with its first character changed into '#' is
      received as an empty packet. */
  lemma ErrorIsTaken(input: seq<Byte>)
    ensures var data := [0x78, 0x30, 0x30];
      Plain(data) && Receive(Idle, Framed(data)[1 := HASH] + input, []).st == Done([])
  {
    var data := [0x78, 0x30, 0x30];
    assert Follows(data, 0)[0] == 0x30 && Follows(data, 0)[1] == 0x30 && Checksum(data[..0]) == 0;
    hide Tail, Checksum, Receive, Framed, Follows;
    ErrorOutcome(data, 0, HASH, input, []);
  }

  lemma ChangedFrame(data: seq<Byte>, i: nat, c: Byte)
    requires i < |data|
    ensures Framed(data)[i + 1 := c] == [DOLLAR] + (data[i := c] + Tail(Checksum(data)))
  {
    hide Tail, Checksum;
    ChangedBehind([DOLLAR], data + Tail(Checksum(data)), i, c);
    ChangedBefore(data, Tail(Checksum(data)), i, c);
  }

  lemma ChangedBehind(a: seq<Byte>, b: seq<Byte>, i: nat, c: Byte)
    requires i < |b|
    ensures (a + b)[|a| + i := c] == a + b[i := c]
  {
  }

  lemma ChangedBefore(a: seq<Byte>, b: seq<Byte>, i: nat, c: Byte)
    requires i < |a|
    ensures (a + b)[i := c] == a[i := c] + b
  {
  }

  // ---------------------------------------------------------------- the loops

  /** `PutPacket`, up to the wait for the reply. The data is a string: it ends at the first
      NUL. */
  method SendFrame(data: seq<Byte>) returns (sent: seq<Byte>)
    requires forall i :: 0 <= i < |data| ==> data[i] != 0
    ensures sent == Framed(data)
  {
    sent := [DOLLAR];
    var checksum: Byte := 0;
    var count := 0;
    while count < |data|
      invariant 0 <= count <= |data| && sent == [DOLLAR] + data[..count]
      invariant checksum == Checksum(data[..count])
    {
      var ch := data[count];
      assert data[..count + 1][..count] == data[..count];
      sent := sent + [ch];
      checksum := (checksum + ch) % 256;
      count := count + 1;
    }
    assert data[..count] == data;
    sent := sent + [HASH];
    sent := sent + [HexChar(checksum / 16)];
    sent := sent + [HexChar(checksum % 16)];
    assert sent == [DOLLAR] + (data + Tail(checksum));
  }

  /** Waits for the start character. */
  method SkipToStart(input: seq<Byte>, from: nat, ghost replies: seq<Byte>) returns (pos: nat)
    requires from <= |input|
    ensures from <= pos <= |input| && (pos < |input| ==> Seven(input[pos]) == DOLLAR)
    ensures Receive(Idle, input[from..], replies) == Receive(Idle, input[pos..], replies)
  {
    hide Receive;
    pos := from;
    while pos < |input| && Seven(input[pos]) != DOLLAR
      invariant from <= pos <= |input|
      invariant Receive(Idle, input[from..], replies) == Receive(Idle, input[pos..], replies)
    {
      Advance(Idle, input, pos, replies);
      pos := pos + 1;
    }
  }

  /** Reads until a '#' or the end of the buffer; a '$' starts over. `st` is where that
      leaves the receiver, in front of the input at `pos`. */
  method ReadBody(input: seq<Byte>, from: nat, ghost replies: seq<Byte>)
    returns (ended: bool, data: seq<Byte>, checksum: Byte, pos: nat, ghost st: State)
    requires from <= |input|
    ensures from <= pos <= |input| && !st.Done?
    ensures Receive(Body([]), input[from..], replies) == Receive(st, input[pos..], replies)
    ensures ended ==> st == Sum1(data) && checksum == Checksum(data)
    ensures !ended ==> st == Idle || pos == |input|
  {
    hide Checksum, Receive;
    EmptySum();
    data, checksum, pos := [], 0, from;
    while |data| < BUFMAX && pos < |input|
      invariant from <= pos <= |input| && |data| <= BUFMAX && checksum == Checksum(data)
      invariant Receive(Body([]), input[from..], replies) == Receive(InBody(data), input[pos..], replies)
      decreases |input| - pos
    {
      var ch := Seven(input[pos]);
      Advance(Body(data), input, pos, replies);
      pos := pos + 1;
      if ch == DOLLAR {
        data, checksum := [], 0;
      } else if ch == HASH {
        return true, data, checksum, pos, Sum1(data);
      } else {
        MoreSum(data, ch);
        checksum := (checksum + ch) % 256;
        data := data + [ch];
      }
    }
    ended, st := false, InBody(data);
  }

  /** The state behind some characters of a body. */
  function InBody(data: seq<Byte>): State {
    if |data| < BUFMAX then Body(data) else Idle
  }

  /** Reads the checksum, if it has come, and replies. */
  method ReadSum(input: seq<Byte>, from: nat, data: seq<Byte>, checksum: Byte, replies: seq<Byte>)
    returns (ok: bool, pos: nat, replies': seq<Byte>, ghost st: State)
    requires from <= |input| && checksum == Checksum(data)
    ensures from <= pos <= |input|
    ensures Receive(Sum1(data), input[from..], replies) == Receive(st, input[pos..], replies')
    ensures ok <==> st.Done?
    ensures ok ==> st == Done(data)
    ensures !ok ==> (st == Idle && pos == from + 2) || pos == |input|
  {
    hide Checksum, Receive, Hex;
    ok, pos, replies', st := false, from, replies, Sum1(data);
    if pos == |input| {
      return;
    }
    var digit := Hex(Seven(input[pos]));
    Advance(Sum1(data), input, pos, replies);
    pos, st := pos + 1, Sum2(data, digit);
    if pos == |input| {
      return;
    }
    var xmitcsum := (16 * digit + Hex(Seven(input[pos]))) % 256;
    Advance(Sum2(data, digit), input, pos, replies);
    pos := pos + 1;
    ok := checksum == xmitcsum;
    replies', st := replies + [if ok then PLUS else MINUS], if ok then Done(data) else Idle;
  }

  lemma AtEnd(st: State, input: seq<Byte>, pos: nat, replies: seq<Byte>)
    requires pos <= |input| && (st.Done? || pos == |input|)
    ensures Receive(st, input[pos..], replies) == Outcome(st, input[pos..], replies)
  {
  }

  /** `GetPacket`, on the characters that have come: None while the packet is not complete. */
  method GetPacket(input: seq<Byte>) returns (packet: Option<seq<Byte>>, pos: nat, replies: seq<Byte>)
    ensures pos <= |input|
    ensures var o := Receive(Idle, input, []);
      && replies == o.replies && input[pos..] == o.rest
      && packet == if o.st.Done? then Some(o.st.data) else None
  {
    hide Receive, Checksum;
    ghost var goal := Receive(Idle, input, []);
    pos, replies := 0, [];
    assert input[0..] == input;
    ghost var st := Idle;
    while pos < |input|
      invariant pos <= |input| && !st.Done? && (pos < |input| ==> st == Idle)
      invariant Receive(st, input[pos..], replies) == goal
      decreases |input| - pos
    {
      pos := SkipToStart(input, pos, replies);
      if pos == |input| {
        break;
      }
      Advance(Idle, input, pos, replies);
      var ended, data, checksum;
      ended, data, checksum, pos, st := ReadBody(input, pos + 1, replies);
      if ended {
        var ok;
        ok, pos, replies, st := ReadSum(input, pos, data, checksum, replies);
        if ok {
          AtEnd(st, input, pos, replies);
          return Some(data), pos, replies;
        }
      }
    }
    AtEnd(st, input, pos, replies);
    packet := None;
  }

  lemma EmptySum()
    ensures Checksum([]) == 0
  {
  }

  lemma MoreSum(data: seq<Byte>, c: Byte)
    ensures Checksum(data + [c]) == (Checksum(data) + c) % 256
  {
    assert (data + [c])[..|data|] == data;
  }

  lemma Advance(st: State, input: seq<Byte>, pos: nat, replies: seq<Byte>)
    requires !st.Done? && pos < |input|
    ensures var (next, reply) := Step(st, Seven(input[pos]));
      Receive(st, input[pos..], replies) == Receive(next, input[pos + 1..], replies + reply)
    ensures replies + [] == replies
  {
    assert input[pos..] == [input[pos]] + input[pos + 1..];
    ReceiveOne(st, input[pos], input[pos + 1..], replies);
  }
}
