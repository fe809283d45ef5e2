/**
 The signed trade tuple inside an order's action (internal/matching/trade_units.go and
 internal/api/orders.go): seven 32-byte words in hexadecimal, as in the Solidity Contract ABI
 Specification, section "Formal Specification of the Encoding".
 */
module TradeData {
  import opened Wrappers
  import opened Numerals

  type byte = b: int | 0 <= b < 256

  const WORD_LENGTH: nat := 32
  const WORD_COUNT: nat := 7

  datatype DecodeError = MissingData | UnexpectedLength | BadHex | PriceNotPositive | AmountNotPositive

  datatype TradeAction = TradeAction(asset: string, subId: nat, limitPrice: int, desiredAmount: int, isBid: bool)

  // ----- Hexadecimal text

  predicate IsHex(c: char) {
    '0' <= c <= '9' || 'a' <= c <= 'f' || 'A' <= c <= 'F'
  }

  function HexValue(c: char): (v: nat)
    requires IsHex(c)
    ensures v < 16
  {
    if '0' <= c <= '9' then c as int - '0' as int
    else if 'a' <= c <= 'f' then c as int - 'a' as int + 10
    else c as int - 'A' as int + 10
  }

  function HexChar(v: nat): (c: char)
    requires v < 16
    ensures IsHex(c) && HexValue(c) == v && Lower(c) == c
  {
    if v < 10 then ('0' as int + v) as char else ('a' as int + v - 10) as char
  }

  /** strings.ToLower on one ASCII character. */
  function Lower(c: char): char {
    if 'A' <= c <= 'Z' then (c as int + 32) as char else c
  }

  function ToLower(s: string): (t: string)
    ensures |t| == |s|
  {
    seq(|s|, i requires 0 <= i < |s| => Lower(s[i]))
  }

  /** hex.DecodeString: both cases are accepted. */
  function HexDecode(s: string): Option<seq<byte>> {
    if |s| % 2 == 0 && forall i | 0 <= i < |s| :: IsHex(s[i]) then
      Some(seq(|s| / 2, i requires 0 <= i < |s| / 2 && |s| % 2 == 0 && (forall j | 0 <= j < |s| :: IsHex(s[j])) =>
        16 * HexValue(s[2 * i]) + HexValue(s[2 * i + 1])))
    else None
  }

  /** hex.EncodeToString. */
  function HexEncode(bytes: seq<byte>): (s: string)
    ensures |s| == 2 * |bytes|
  {
    seq(2 * |bytes|, j requires 0 <= j < 2 * |bytes| =>
      HexChar(if j % 2 == 0 then bytes[j / 2] / 16 else bytes[j / 2] % 16))
  }

  lemma HexRoundTrip(bytes: seq<byte>)
    ensures HexDecode(HexEncode(bytes)) == Some(bytes)
  {
    hide HexChar, HexValue, IsHex;
    var s := HexEncode(bytes);
    assert forall i | 0 <= i < |s| :: IsHex(s[i]);
    var back := HexDecode(s).value;
    forall i | 0 <= i < |bytes|
      ensures back[i] == bytes[i]
    {
      HexDigits(bytes, i);
      assert back[i] == 16 * HexValue(s[2 * i]) + HexValue(s[2 * i + 1]);
    }
    assert back == bytes;
  }

  lemma HexDigits(bytes: seq<byte>, i: nat)
    requires i < |bytes|
    ensures var s := HexEncode(bytes);
      HexValue(s[2 * i]) == bytes[i] / 16 && HexValue(s[2 * i + 1]) == bytes[i] % 16
  {
    assert (2 * i) / 2 == i && (2 * i) % 2 == 0;
    assert (2 * i + 1) / 2 == i && (2 * i + 1) % 2 == 1;
  }

  /** Letter case makes no difference to the bytes. */
  lemma HexIgnoresCase(s: string)
    ensures HexDecode(ToLower(s)) == HexDecode(s)
  {
    var t := ToLower(s);
    assert forall i | 0 <= i < |s| :: IsHex(t[i]) <==> IsHex(s[i]);
    if HexDecode(s).Some? {
      assert forall i | 0 <= i < |s| :: HexValue(t[i]) == HexValue(s[i]);
      assert HexDecode(t).value == HexDecode(s).value;
    }
  }

  // ----- Words

  function Pow256(n: nat): (p: nat)
    ensures p > 0
  {
    if n == 0 then 1 else 256 * Pow256(n - 1)
  }

  /** big.Int.SetBytes. */
  function BigEndian(bytes: seq<byte>): nat {
    if bytes == [] then 0 else 256 * BigEndian(bytes[..|bytes| - 1]) + bytes[|bytes| - 1]
  }

  /** v in n bytes, most significant first. */
  function ToBytes(v: nat, n: nat): (bytes: seq<byte>)
    ensures |bytes| == n
  {
    if n == 0 then [] else ToBytes(v / 256, n - 1) + [v % 256]
  }

  lemma {:induction false} BytesRoundTrip(v: nat, n: nat)
    requires v < Pow256(n)
    ensures BigEndian(ToBytes(v, n)) == v
  {
    if n > 0 {
      BytesRoundTrip(v / 256, n - 1);
      var bytes := ToBytes(v, n);
      assert bytes[..n - 1] == ToBytes(v / 256, n - 1);
    }
  }

  lemma {:induction false} BigEndianBound(bytes: seq<byte>)
    ensures BigEndian(bytes) < Pow256(|bytes|)
  {
    if bytes != [] {
      BigEndianBound(bytes[..|bytes| - 1]);
    }
  }

  /** The top byte tells the halves of the range apart. */
  lemma {:induction false} TopByte(bytes: seq<byte>)
    requires bytes != []
    ensures bytes[0] < 128 <==> 2 * BigEndian(bytes) < Pow256(|bytes|)
  {
    var n := |bytes|;
    if n == 1 {
      assert bytes[..0] == [];
      assert Pow256(1) == 256 * Pow256(0);
    } else {
      var front := bytes[..n - 1];
      TopByte(front);
      HalfIsWhole(n - 1);
    }
  }

  lemma HalfIsWhole(n: nat)
    requires n > 0
    ensures Pow256(n) % 2 == 0
  {
  }

  /** A word as a two's-complement integer. */
  function Int256(word: seq<byte>): int
    requires |word| == WORD_LENGTH
  {
    if word[0] < 128 then BigEndian(word) else BigEndian(word) - Pow256(WORD_LENGTH)
  }

  predicate InInt256(v: int) {
    -(Pow256(WORD_LENGTH) as int) <= 2 * v < Pow256(WORD_LENGTH)
  }

  lemma SmallIsInt256(v: int)
    requires 0 <= v < 0x1_0000_0000_0000_0000
    ensures InInt256(v)
  {
    assert Pow256(9) == 0x100_0000_0000_0000_0000;
    Pow256Grows(9, WORD_LENGTH);
  }

  lemma {:induction false} Pow256Grows(m: nat, n: nat)
    requires m <= n
    ensures Pow256(m) <= Pow256(n)
    decreases n - m
  {
    if m < n {
      Pow256Grows(m + 1, n);
    }
  }

  function Int256Word(v: int): (word: seq<byte>)
    requires InInt256(v)
    ensures |word| == WORD_LENGTH
  {
    ToBytes(if v < 0 then v + Pow256(WORD_LENGTH) else v, WORD_LENGTH)
  }

  lemma Int256InRange(word: seq<byte>)
    requires |word| == WORD_LENGTH
    ensures InInt256(Int256(word))
  {
    hide BigEndian, Pow256;
    TopByte(word);
    BigEndianBound(word);
  }

  lemma Int256RoundTrip(v: int)
    requires InInt256(v)
    ensures Int256(Int256Word(v)) == v
  {
    hide BigEndian, Pow256, ToBytes;
    var u := if v < 0 then v + Pow256(WORD_LENGTH) else v;
    BytesRoundTrip(u, WORD_LENGTH);
    TopByte(Int256Word(v));
  }

  // ----- The tuple

  function Word(payload: seq<byte>, i: nat): (word: seq<byte>)
    requires |payload| == WORD_COUNT * WORD_LENGTH && i < WORD_COUNT
    ensures |word| == WORD_LENGTH
  {
    payload[i * WORD_LENGTH..(i + 1) * WORD_LENGTH]
  }

  function FromWords(payload: seq<byte>): TradeAction
    requires |payload| == WORD_COUNT * WORD_LENGTH
  {
    TradeAction(
      "0x" + HexEncode(Word(payload, 0)[12..]),
      BigEndian(Word(payload, 1)),
      Int256(Word(payload, 2)),
      Int256(Word(payload, 3)),
      BigEndian(Word(payload, 6)) != 0)
  }

  function TrimPrefix(s: string, prefix: string): string {
    if prefix <= s then s[|prefix|..] else s
  }

  function FromHex(hex: string): Result<TradeAction, DecodeError> {
    if |hex| != 2 * WORD_COUNT * WORD_LENGTH then Err(UnexpectedLength)
    else
      match HexDecode(hex)
      case None => Err(BadHex)
      case Some(payload) => Ok(FromWords(payload))
  }

  /** The matcher's decoder: letter case of the 0x prefix matters. */
  function DecodeTradeData(raw: string): Result<TradeAction, DecodeError> {
    FromHex(TrimPrefix(TrimSpace(raw), "0x"))
  }

  /** The matcher's view of an action whose data field is raw. */
  function ParseTradeAction(raw: string): Result<TradeAction, DecodeError> {
    if TrimSpace(raw) == "" then Err(MissingData) else DecodeTradeData(raw)
  }

  /** The API wants both signed values positive. */
  function Positive(action: TradeAction): Result<TradeAction, DecodeError> {
    if action.limitPrice <= 0 then Err(PriceNotPositive)
    else if action.desiredAmount <= 0 then Err(AmountNotPositive)
    else Ok(action)
  }

  /** The API's decoder: everything is lower-cased first, and both signed values must be positive. */
  function ParseActionTradeData(raw: string): Result<TradeAction, DecodeError> {
    match FromHex(TrimPrefix(ToLower(TrimSpace(raw)), "0x"))
    case Err(e) => Err(e)
    case Ok(action) => Positive(action)
  }

  // ----- Spellings of one payload

  /** Both decoders drop the prefix 0x and white space at either end; only the API also drops 0X. */
  lemma SpellingsRead(hex: string, left: string, right: string)
    requires hex != "" && forall i | 0 <= i < |hex| :: IsHex(hex[i])
    requires AllSpace(left) && AllSpace(right)
    ensures ParseTradeAction(left + "0x" + hex + right) == FromHex(hex) == ParseTradeAction(left + hex + right)
    ensures FromHex(hex).Ok? ==>
      && ParseActionTradeData(left + "0x" + hex + right) == Positive(FromHex(hex).value)
      && ParseActionTradeData(left + "0X" + hex + right) == Positive(FromHex(hex).value)
      && ParseActionTradeData(left + hex + right) == Positive(FromHex(hex).value)
      && ParseTradeAction(left + "0X" + hex + right) == Err(UnexpectedLength)
  {
    hide HexDecode, FromWords, TrimSpace, Positive, IsSpace, IsHex, TrimPrefix, ToLower;
    TrimsSpelling("0x", hex, left, right);
    TrimsSpelling("0X", hex, left, right);
    TrimsSpelling("", hex, left, right);
    assert left + "" + hex == left + hex;
    LowerSpelling("0x", hex);
    LowerSpelling("0X", hex);
    LowerSpelling("", hex);
    HexIgnoresCase(hex);
  }

  lemma TrimsSpelling(prefix: string, hex: string, left: string, right: string)
    requires hex != "" && forall i | 0 <= i < |hex| :: IsHex(hex[i])
    requires prefix in {"", "0x", "0X"} && AllSpace(left) && AllSpace(right)
    ensures TrimSpace(left + prefix + hex + right) == prefix + hex
    ensures prefix != "0X" ==> TrimPrefix(prefix + hex, "0x") == hex
    ensures prefix == "0X" ==> TrimPrefix(prefix + hex, "0x") == prefix + hex
  {
    hide TrimSpace;
    var s := prefix + hex;
    assert left + prefix + hex + right == left + s + right;
    assert s[|s| - 1] == hex[|hex| - 1];
    TrimsPadding(left, s, right);
    assert s[|prefix|..] == hex;
    if prefix == "" {
      assert s == hex;
      NoPrefix(hex);
    } else if prefix == "0X" {
      assert s[1] == 'X';
      NoPrefix(s);
    }
  }

  lemma NoPrefix(s: string)
    requires |s| >= 2 ==> s[1] != 'x'
    ensures TrimPrefix(s, "0x") == s
  {
  }

  lemma LowerSpelling(prefix: string, hex: string)
    requires prefix in {"", "0x", "0X"} && forall i | 0 <= i < |hex| :: IsHex(hex[i])
    ensures TrimPrefix(ToLower(prefix + hex), "0x") == ToLower(hex)
  {
    var low := ToLower(prefix + hex);
    assert low == ToLower(prefix) + ToLower(hex);
    assert low[|prefix|..] == ToLower(hex);
    if prefix == "" {
      assert low == ToLower(hex);
      NoPrefix(low);
    } else {
      assert ToLower(prefix) == "0x";
    }
  }

  /** Encoding: address, sub id, price, amount, two further words, and the side flag. */
  function EncodeWords(asset: seq<byte>, subId: nat, limitPrice: int, desiredAmount: int,
                       word4: seq<byte>, word5: seq<byte>, isBid: bool): (payload: seq<byte>)
    requires |asset| == 20 && |word4| == |word5| == WORD_LENGTH
    requires InInt256(limitPrice) && InInt256(desiredAmount)
    ensures |payload| == WORD_COUNT * WORD_LENGTH
  {
    ToBytes(0, 12) + asset + ToBytes(subId, WORD_LENGTH) + Int256Word(limitPrice) + Int256Word(desiredAmount)
    + word4 + word5 + ToBytes(if isBid then 1 else 0, WORD_LENGTH)
  }

  /**
   Both decoders invert the encoding, for every tuple in range, or every positive one in the API's case,
   with or without the prefix 0x and whatever white space surrounds the text.
   */
  lemma DecodeUndoesEncode(asset: seq<byte>, subId: nat, limitPrice: int, desiredAmount: int,
                           word4: seq<byte>, word5: seq<byte>, isBid: bool, prefix: string, left: string, right: string)
    requires |asset| == 20 && |word4| == |word5| == WORD_LENGTH
    requires subId < Pow256(WORD_LENGTH) && InInt256(limitPrice) && InInt256(desiredAmount)
    requires prefix in {"", "0x"} && AllSpace(left) && AllSpace(right)
    ensures var raw := left + prefix + HexEncode(EncodeWords(asset, subId, limitPrice, desiredAmount, word4, word5, isBid)) + right;
      var action := TradeAction("0x" + HexEncode(asset), subId, limitPrice, desiredAmount, isBid);
      && ParseTradeAction(raw) == Ok(action)
      && (limitPrice > 0 && desiredAmount > 0 ==> ParseActionTradeData(raw) == Ok(action))
  {
    hide ParseTradeAction, ParseActionTradeData, EncodeWords, InInt256, Pow256, HexEncode, FromHex, IsSpace, IsHex;
    var hex := HexEncode(EncodeWords(asset, subId, limitPrice, desiredAmount, word4, word5, isBid));
    EncodedReads(asset, subId, limitPrice, desiredAmount, word4, word5, isBid);
    SpellingsRead(hex, left, right);
    assert left + "" + hex + right == left + hex + right;
  }

  /** One spelling tells the decoders apart: under the prefix 0X the API reads every positive tuple, the matcher none. */
  lemma UpperPrefixIsAdmitted(asset: seq<byte>, subId: nat, limitPrice: int, desiredAmount: int,
                              word4: seq<byte>, word5: seq<byte>, isBid: bool)
    requires |asset| == 20 && |word4| == |word5| == WORD_LENGTH
    requires subId < Pow256(WORD_LENGTH) && InInt256(limitPrice) && InInt256(desiredAmount)
    requires limitPrice > 0 && desiredAmount > 0
    ensures var raw := "0X" + HexEncode(EncodeWords(asset, subId, limitPrice, desiredAmount, word4, word5, isBid));
      && ParseActionTradeData(raw) == Ok(TradeAction("0x" + HexEncode(asset), subId, limitPrice, desiredAmount, isBid))
      && ParseTradeAction(raw) == Err(UnexpectedLength)
  {
    hide ParseTradeAction, ParseActionTradeData, EncodeWords, InInt256, Pow256, HexEncode, FromHex, IsSpace, IsHex;
    var hex := HexEncode(EncodeWords(asset, subId, limitPrice, desiredAmount, word4, word5, isBid));
    EncodedReads(asset, subId, limitPrice, desiredAmount, word4, word5, isBid);
    SpellingsRead(hex, "", "");
    assert "" + "0X" + hex + "" == "0X" + hex;
  }

  lemma EncodedReads(asset: seq<byte>, subId: nat, limitPrice: int, desiredAmount: int,
                     word4: seq<byte>, word5: seq<byte>, isBid: bool)
    requires |asset| == 20 && |word4| == |word5| == WORD_LENGTH
    requires subId < Pow256(WORD_LENGTH) && InInt256(limitPrice) && InInt256(desiredAmount)
    ensures var hex := HexEncode(EncodeWords(asset, subId, limitPrice, desiredAmount, word4, word5, isBid));
      && hex != "" && (forall i | 0 <= i < |hex| :: IsHex(hex[i]))
      && FromHex(hex) == Ok(TradeAction("0x" + HexEncode(asset), subId, limitPrice, desiredAmount, isBid))
  {
    hide BigEndian, Pow256, ToBytes, HexEncode, HexDecode, Int256, FromWords, IsHex;
    var payload := EncodeWords(asset, subId, limitPrice, desiredAmount, word4, word5, isBid);
    HexRoundTrip(payload);
    EncodedIsHex(payload);
    WordsRoundTrip(asset, subId, limitPrice, desiredAmount, word4, word5, isBid);
  }

  lemma EncodedIsHex(bytes: seq<byte>)
    ensures forall i | 0 <= i < 2 * |bytes| :: IsHex(HexEncode(bytes)[i])
  {
    hide IsHex, HexChar;
  }

  lemma WordsRoundTrip(asset: seq<byte>, subId: nat, limitPrice: int, desiredAmount: int,
                       word4: seq<byte>, word5: seq<byte>, isBid: bool)
    requires |asset| == 20 && |word4| == |word5| == WORD_LENGTH
    requires subId < Pow256(WORD_LENGTH) && InInt256(limitPrice) && InInt256(desiredAmount)
    ensures FromWords(EncodeWords(asset, subId, limitPrice, desiredAmount, word4, word5, isBid))
         == TradeAction("0x" + HexEncode(asset), subId, limitPrice, desiredAmount, isBid)
  {
    hide BigEndian, Pow256, ToBytes, HexEncode, Int256, Int256Word;
    var payload := EncodeWords(asset, subId, limitPrice, desiredAmount, word4, word5, isBid);
    var flag := if isBid then 1 else 0;
    assert Word(payload, 0)[12..] == asset;
    assert Word(payload, 1) == ToBytes(subId, WORD_LENGTH);
    assert Word(payload, 2) == Int256Word(limitPrice);
    assert Word(payload, 3) == Int256Word(desiredAmount);
    assert Word(payload, 6) == ToBytes(flag, WORD_LENGTH);
    BytesRoundTrip(subId, WORD_LENGTH);
    Int256RoundTrip(limitPrice);
    Int256RoundTrip(desiredAmount);
    FlagFits(flag);
    BytesRoundTrip(flag, WORD_LENGTH);
  }

  /**
   Reading seven words, field by field: the asset is the last 20 bytes of the first word whatever stands before
   them, words 4 and 5 do not matter, and the side is a bid when any bit of the last word is set.
   */
  lemma WordsMeaning(payload: seq<byte>)
    requires |payload| == WORD_COUNT * WORD_LENGTH
    ensures var action := FromWords(payload);
      && action.asset == "0x" + HexEncode(payload[12..32]) && action.subId == BigEndian(payload[32..64])
      && action.limitPrice == Int256(payload[64..96]) && action.desiredAmount == Int256(payload[96..128])
      && (action.isBid <==> exists i | 192 <= i < 224 :: payload[i] != 0)
  {
    hide BigEndian, HexEncode, Int256;
    assert Word(payload, 0)[12..] == payload[12..32];
    var flag := Word(payload, 6);
    assert forall i | 192 <= i < 224 :: payload[i] == flag[i - 192];
    NonzeroBytes(flag);
    if exists j | 0 <= j < 32 :: flag[j] != 0 {
      var j :| 0 <= j < 32 && flag[j] != 0;
      assert payload[192 + j] != 0;
    }
  }

  lemma {:induction false} NonzeroBytes(bytes: seq<byte>)
    ensures BigEndian(bytes) != 0 <==> exists i | 0 <= i < |bytes| :: bytes[i] != 0
  {
    if bytes != [] {
      var n := |bytes| - 1;
      NonzeroBytes(bytes[..n]);
      assert forall i | 0 <= i < n :: bytes[..n][i] == bytes[i];
    }
  }

  lemma FlagFits(flag: nat)
    requires flag < 2
    ensures flag < Pow256(WORD_LENGTH)
  {
    assert Pow256(WORD_LENGTH) == 256 * Pow256(WORD_LENGTH - 1);
  }

  /**
   The two decoders agree on every payload the API lets in, except one spelling: an upper-case 0X
   prefix, which the API strips and the matcher counts as two digits too many.
   */
  lemma DecodersAgree(raw: string)
    requires ParseActionTradeData(raw).Ok?
    ensures ParseTradeAction(raw) == Ok(ParseActionTradeData(raw).value) <==> !("0X" <= TrimSpace(raw))
    ensures "0X" <= TrimSpace(raw) ==> ParseTradeAction(raw) == Err(UnexpectedLength)
  {
    hide HexDecode, FromWords, TrimSpace;
    var t := TrimSpace(raw);
    var low := ToLower(t);
    HexIgnoresCase(t);
    if |t| >= 2 {
      assert low[0] == Lower(t[0]) && low[1] == Lower(t[1]);
      assert low[2..] == ToLower(t[2..]);
      HexIgnoresCase(t[2..]);
    }
  }

  /** Whatever the matcher reads as a tuple with positive values, the API reads the same way. */
  lemma MatcherImpliesApi(raw: string)
    requires ParseTradeAction(raw).Ok?
    requires ParseTradeAction(raw).value.limitPrice > 0 && ParseTradeAction(raw).value.desiredAmount > 0
    requires !("0X" <= TrimSpace(raw))
    ensures ParseActionTradeData(raw) == ParseTradeAction(raw)
  {
    hide HexDecode, FromWords, TrimSpace;
    var t := TrimSpace(raw);
    var low := ToLower(t);
    HexIgnoresCase(t);
    if |t| >= 2 {
      assert low[0] == Lower(t[0]) && low[1] == Lower(t[1]);
      assert low[2..] == ToLower(t[2..]);
      HexIgnoresCase(t[2..]);
    }
  }
}
