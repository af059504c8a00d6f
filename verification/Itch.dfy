/** The five ITCH 5.0 messages that change an order book, and their wire layout. */
module Itch {
  import opened Bytes

  const TYPE_ADD: byte := 65           // 'A'
  const TYPE_ADD_MPID: byte := 70      // 'F'
  const TYPE_DELETE: byte := 68        // 'D'
  const TYPE_CANCEL: byte := 88        // 'X'
  const TYPE_EXECUTED: byte := 69      // 'E'
  const TYPE_REPLACE: byte := 85       // 'U'
  const SPACE: byte := 32
  const STOCK_SIZE := 8

  type Symbol = seq<byte>

  datatype Order = Order(side: byte, price: u32, shares: u32)

  datatype Msg =
    | Add(ref: u64, symbol: Symbol, order: Order)
    | Delete(ref: u64)
    | Cancel(ref: u64, shares: u32)
    | Executed(ref: u64, shares: u32)
    | Replace(ref: u64, newRef: u64, price: u32, newShares: u32)

  /** A fixed stock field read as a C string, then stripped of its trailing padding. */
  function CString(field: seq<byte>): seq<byte> {
    if field == [] || field[0] == 0 then [] else [field[0]] + CString(field[1..])
  }

  function TrimRight(s: seq<byte>): seq<byte> {
    if s != [] && s[|s| - 1] == SPACE then TrimRight(s[..|s| - 1]) else s
  }

  /** Decodes a message body; None for every opcode or length the book ignores. */
  function Decode(body: seq<byte>): Option<Msg> {
    if body == [] then None
    else if body[0] == TYPE_ADD || body[0] == TYPE_ADD_MPID then
      if |body| < 36 then None
      else Some(Add(Be64(body, 11), TrimRight(CString(body[24..32])),
                    Order(body[19], Be32(body, 32), Be32(body, 20))))
    else if body[0] == TYPE_DELETE then
      if |body| < 19 then None else Some(Delete(Be64(body, 11)))
    else if body[0] == TYPE_CANCEL then
      if |body| < 23 then None else Some(Cancel(Be64(body, 11), Be32(body, 19)))
    else if body[0] == TYPE_EXECUTED then
      if |body| < 31 then None else Some(Executed(Be64(body, 11), Be32(body, 19)))
    else if body[0] == TYPE_REPLACE then
      if |body| < 35 then None
      else Some(Replace(Be64(body, 11), Be64(body, 19), Be32(body, 31), Be32(body, 27)))
    else None
  }

  // ----- The layout of the specification, field by field -----

  /** The 11-byte prefix of every message: type, stock locate, tracking number, timestamp. */
  function Prefix(kind: byte, locate: u16, tracking: u16, timestamp: nat): (s: seq<byte>)
    ensures |s| == 11 && s[0] == kind
  {
    [kind] + ToBE(locate, 2) + ToBE(tracking, 2) + ToBE(timestamp, 6)
  }

  function Padding(n: nat): (s: seq<byte>)
    ensures |s| == n
  {
    seq(n, _ => SPACE)
  }

  predicate Listed(symbol: Symbol) {
    && |symbol| <= STOCK_SIZE && 0 !in symbol
    && (symbol != [] ==> symbol[|symbol| - 1] != SPACE)
  }

  /** A message as the venue lays it out; `tail` is what follows the fields the book reads. */
  function Encode(m: Msg, prefix: seq<byte>, tail: seq<byte>): seq<byte>
    requires m.Add? ==> Listed(m.symbol)
  {
    match m
    case Add(ref, symbol, o) =>
      prefix + ToBE(ref, 8) + [o.side] + ToBE(o.shares, 4)
      + (symbol + Padding(STOCK_SIZE - |symbol|)) + ToBE(o.price, 4) + tail
    case Delete(ref) => prefix + ToBE(ref, 8) + tail
    case Cancel(ref, shares) => prefix + ToBE(ref, 8) + ToBE(shares, 4) + tail
    case Executed(ref, shares) => prefix + ToBE(ref, 8) + ToBE(shares, 4) + tail
    case Replace(ref, newRef, price, newShares) =>
      prefix + ToBE(ref, 8) + ToBE(newRef, 8) + ToBE(newShares, 4) + ToBE(price, 4) + tail
  }

  predicate KindOf(m: Msg, kind: byte) {
    match m
    case Add(_, _, _) => kind == TYPE_ADD || kind == TYPE_ADD_MPID
    case Delete(_) => kind == TYPE_DELETE
    case Cancel(_, _) => kind == TYPE_CANCEL
    case Executed(_, _) => kind == TYPE_EXECUTED
    case Replace(_, _, _, _) => kind == TYPE_REPLACE
  }

  lemma {:induction false} CStringWithoutNul(field: seq<byte>)
    requires 0 !in field
    ensures CString(field) == field
  {
    if field != [] {
      CStringWithoutNul(field[1..]);
    }
  }

  lemma {:induction false} TrimPadding(symbol: Symbol, n: nat)
    requires Listed(symbol)
    ensures TrimRight(symbol + Padding(n)) == symbol
  {
    var s := symbol + Padding(n);
    if n > 0 {
      assert s[..|s| - 1] == symbol + Padding(n - 1);
      TrimPadding(symbol, n - 1);
    }
  }

  /** Decoding reads back every field of a message laid out by the specification. */
  lemma DecodeEncoded(m: Msg, kind: byte, locate: u16, tracking: u16, timestamp: nat, tail: seq<byte>)
    requires KindOf(m, kind) && (m.Add? ==> Listed(m.symbol))
    requires m.Executed? ==> |tail| >= 8
    ensures Decode(Encode(m, Prefix(kind, locate, tracking, timestamp), tail)) == Some(m)
  {
    var prefix := Prefix(kind, locate, tracking, timestamp);
    var body := Encode(m, prefix, tail);
    Pow256Values();
    assert body[11..19] == ToBE(m.ref, 8);
    ReadBack(body, 11, m.ref, 8);
    match m
    case Delete(_) =>
    case Cancel(_, shares) =>
      assert body[19..23] == ToBE(shares, 4);
      ReadBack(body, 19, shares, 4);
    case Executed(_, shares) =>
      assert body[19..23] == ToBE(shares, 4);
      ReadBack(body, 19, shares, 4);
    case Replace(_, newRef, price, newShares) =>
      DecodeReplace(m, prefix, tail);
    case Add(_, symbol, o) =>
      DecodeAdd(m, prefix, tail);
  }

  lemma DecodeReplace(m: Msg, prefix: seq<byte>, tail: seq<byte>)
    requires m.Replace? && |prefix| == 11
    ensures var body := Encode(m, prefix, tail);
            && |body| >= 35 && Be64(body, 19) == m.newRef && Be32(body, 27) == m.newShares
            && Be32(body, 31) == m.price
  {
    var body := Encode(m, prefix, tail);
    Pow256Values();
    assert body[19..27] == ToBE(m.newRef, 8);
    assert body[27..31] == ToBE(m.newShares, 4);
    assert body[31..35] == ToBE(m.price, 4);
    ReadBack(body, 19, m.newRef, 8);
    ReadBack(body, 27, m.newShares, 4);
    ReadBack(body, 31, m.price, 4);
  }

  /** Four consecutive chunks after the first 19 bytes, each found at its offset. */
  lemma Chunks(head: seq<byte>, a: seq<byte>, b: seq<byte>, c: seq<byte>, d: seq<byte>, tail: seq<byte>)
    requires |head| == 19 && |a| == 1 && |b| == 4 && |c| == 8 && |d| == 4
    ensures var s := head + a + b + c + d + tail;
            && s[19..20] == a && s[20..24] == b && s[24..32] == c && s[32..36] == d
  {
  }

  lemma SymbolReadBack(symbol: Symbol)
    requires Listed(symbol)
    ensures TrimRight(CString(symbol + Padding(STOCK_SIZE - |symbol|))) == symbol
  {
    CStringWithoutNul(symbol + Padding(STOCK_SIZE - |symbol|));
    TrimPadding(symbol, STOCK_SIZE - |symbol|);
  }

  lemma DecodeAdd(m: Msg, prefix: seq<byte>, tail: seq<byte>)
    requires m.Add? && Listed(m.symbol) && |prefix| == 11
    ensures var body := Encode(m, prefix, tail);
            && |body| >= 36 && body[19] == m.order.side && Be32(body, 20) == m.order.shares
            && Be32(body, 32) == m.order.price && TrimRight(CString(body[24..32])) == m.symbol
  {
    var body := Encode(m, prefix, tail);
    var field := m.symbol + Padding(STOCK_SIZE - |m.symbol|);
    var shares, price := ToBE(m.order.shares, 4), ToBE(m.order.price, 4);
    Pow256Values();
    Chunks(prefix + ToBE(m.ref, 8), [m.order.side], shares, field, price, tail);
    assert body[19] == body[19..20][0];
    ReadBack(body, 20, m.order.shares, 4);
    ReadBack(body, 32, m.order.price, 4);
    SymbolReadBack(m.symbol);
  }

  // ----- What decodes, and what is ignored -----

  /** The six opcodes that change a book, each with the shortest body it is read from. */
  predicate IsBookMessage(body: seq<byte>) {
    && body != []
    && (match body[0]
        case 65 => |body| >= 36
        case 70 => |body| >= 36
        case 68 => |body| >= 19
        case 88 => |body| >= 23
        case 69 => |body| >= 31
        case 85 => |body| >= 35
        case _ => false)
  }

  /** When exactly a body is decoded: when its type and length are those of a book message. Any other,
      an Order Executed With Price ('C', 67) among them, is ignored. And it is decoded as what its first
      byte says. */
  lemma DecodesExactly(body: seq<byte>)
    ensures Decode(body).Some? <==> IsBookMessage(body)
    ensures Decode(body).Some? ==> KindOf(Decode(body).value, body[0])
    ensures body != [] && body[0] == 67 ==> Decode(body).None?
  {
  }

  /** A symbol is what a stock field holds before its first NUL, without the spaces at the end. */
  ghost predicate NamedBy(field: seq<byte>, symbol: Symbol) {
    && (symbol != [] ==> symbol[|symbol| - 1] != SPACE)
    && exists n: nat :: EndsAt(field, n) && |symbol| <= n && symbol == field[..|symbol|]
                        && forall i :: |symbol| <= i < n ==> field[i] == SPACE
  }

  ghost predicate EndsAt(field: seq<byte>, n: nat) {
    n <= |field| && 0 !in field[..n] && (n == |field| || field[n] == 0)
  }

  lemma {:induction false} CStringEnds(field: seq<byte>)
    ensures EndsAt(field, |CString(field)|) && CString(field) == field[..|CString(field)|]
  {
    if field != [] && field[0] != 0 {
      CStringEnds(field[1..]);
      var n := |CString(field[1..])|;
      assert field[..n + 1] == [field[0]] + field[1..][..n];
    }
  }

  lemma {:induction false} TrimmedEnds(s: seq<byte>)
    ensures var t := TrimRight(s);
            && |t| <= |s| && t == s[..|t|] && (t != [] ==> t[|t| - 1] != SPACE)
            && forall i :: |t| <= i < |s| ==> s[i] == SPACE
  {
    if s != [] && s[|s| - 1] == SPACE {
      TrimmedEnds(s[..|s| - 1]);
    }
  }

  /** Every Add, padded or not, is for the symbol its stock field names. */
  lemma AddNamesSymbol(body: seq<byte>)
    requires Decode(body).Some? && Decode(body).value.Add?
    ensures |body| >= 36 && NamedBy(body[24..32], Decode(body).value.symbol)
  {
    var field := body[24..32];
    var s := CString(field);
    CStringEnds(field);
    TrimmedEnds(s);
    var t := TrimRight(s);
    assert t == field[..|t|];
    forall i | |t| <= i < |s|
      ensures field[i] == SPACE
    {
      assert s[i] == field[i];
    }
    assert EndsAt(field, |s|);
  }
}
