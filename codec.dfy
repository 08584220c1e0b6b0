/**
 * The byte encoding of a message, used both for the stored value and for the
 * gossip payload.
 *
 * The Go code calls `encoding/json`, which is outside this model. In its place
 * stands a fixed-layout subset of the same JSON text,
 *   {"sender":"<text>","content":"<text>","timestamp":<decimal>}
 * where a text escapes `"` and `\` with a backslash. What the rest of the model
 * relies on is proved here: decoding an encoding gives the message back, and a
 * payload that does not open with `{` never decodes.
 */
module Codec {
  import opened Wrappers
  import opened Octets
  import opened Fmt
  import opened Domain

  const QuoteMark: byte := 34   // '"'
  const Backslash: byte := 92   // '\'
  const OpenBrace: byte := 123  // '{'
  const CloseBrace: byte := 125 // '}'

  /** The field names, in the order the struct declares them. */
  const SenderField: Bytes := FromString("{\"sender\":\"")
  const ContentField: Bytes := FromString(",\"content\":\"")
  const TimestampField: Bytes := FromString(",\"timestamp\":")

  /** The escaped body of a JSON string followed by its closing quote. */
  function Quote(s: Bytes): (r: Bytes)
    ensures |r| >= 1
    decreases |s|
  {
    if s == [] then [QuoteMark]
    else (if s[0] == QuoteMark || s[0] == Backslash then [Backslash, s[0]] else [s[0]]) + Quote(s[1..])
  }

  /** Reads a JSON string body up to its closing quote; gives the text and what follows the quote. */
  function Unquote(s: Bytes): (r: Option<(Bytes, Bytes)>)
    decreases |s|
  {
    if s == [] then None
    else if s[0] == QuoteMark then Some(([], s[1..]))
    else if s[0] == Backslash then
      if |s| < 2 then None
      else match Unquote(s[2..])
        case None => None
        case Some(p) => Some(([s[1]] + p.0, p.1))
    else match Unquote(s[1..])
      case None => None
      case Some(p) => Some(([s[0]] + p.0, p.1))
  }

  /** `json.Marshal(msg)`. */
  function Encode(m: Message): (r: Bytes)
    ensures |r| > 0 && r[0] == OpenBrace
    ensures StartsWith(r, SenderField) && r[|r| - 1] == CloseBrace
  {
    assert SenderField[0] == OpenBrace;
    SenderField + (Quote(m.sender) + (ContentField + (Quote(m.content)
      + (TimestampField + (FormatInt(m.timestamp) + [CloseBrace])))))
  }

  /** Reads the field name `field` and then a string value; gives the text and what follows it. */
  function TextField(b: Bytes, field: Bytes): (r: Option<(Bytes, Bytes)>)
    ensures r.Some? ==> |r.value.1| < |b| && r.value.1 == b[|b| - |r.value.1|..]
  {
    if StartsWith(b, field) then UnquoteSuffix(b[|field|..]); Unquote(b[|field|..]) else None
  }

  /** Reads the timestamp field and the closing brace that must end the payload. */
  function TimestampTail(b: Bytes): (r: Option<int>)
    ensures r.Some? ==> b != [] && b[|b| - 1] == CloseBrace
  {
    if !StartsWith(b, TimestampField) then None
    else
      var rest := b[|TimestampField|..];
      if rest == [] || rest[|rest| - 1] != CloseBrace then None
      else ParseInt(rest[..|rest| - 1])
  }

  /** `json.Unmarshal(data, &m)`, with None for the error return. */
  function Decode(b: Bytes): (r: Option<Message>)
    ensures r.Some? ==> StartsWith(b, SenderField) && b[|b| - 1] == CloseBrace
  {
    match TextField(b, SenderField)
    case None => None
    case Some(p1) =>
      match TextField(p1.1, ContentField)
      case None => None
      case Some(p2) =>
        match TimestampTail(p2.1)
        case None => None
        case Some(t) => Some(Message(p1.0, p2.0, t))
  }

  /** `var m domain.Message; json.Unmarshal(v, &m)` with the error ignored: a failed decode leaves the zero message. */
  function DecodeOrZero(b: Bytes): (m: Message)
    ensures m != ZeroMessage ==> Decode(b) == Some(m)
    ensures Decode(b) == None ==> m == ZeroMessage
  {
    match Decode(b)
    case Some(m) => m
    case None => ZeroMessage
  }

  /** What follows a string's closing quote is a strictly shorter tail of the input. */
  lemma {:induction false} UnquoteSuffix(s: Bytes)
    ensures var r := Unquote(s);
      r.Some? ==> |r.value.1| < |s| && r.value.1 == s[|s| - |r.value.1|..]
    decreases |s|
  {
    if s != [] && s[0] != QuoteMark {
      if s[0] == Backslash {
        if |s| >= 2 {
          UnquoteSuffix(s[2..]);
        }
      } else {
        UnquoteSuffix(s[1..]);
      }
    }
  }

  lemma {:induction false} UnquoteQuote(s: Bytes, rest: Bytes)
    ensures Unquote(Quote(s) + rest) == Some((s, rest))
    decreases |s|
  {
    var t := Quote(s) + rest;
    if s == [] {
      assert t == [QuoteMark] + rest;
      assert t[1..] == rest;
    } else {
      var c, tail := s[0], Quote(s[1..]) + rest;
      UnquoteQuote(s[1..], rest);
      if c == QuoteMark || c == Backslash {
        assert t == [Backslash, c] + tail;
        assert t[0] == Backslash && t[1] == c && t[2..] == tail;
      } else {
        assert t == [c] + tail;
        assert t[0] == c && t[1..] == tail;
      }
      assert [c] + s[1..] == s;
    }
  }

  lemma TextFieldQuote(field: Bytes, s: Bytes, rest: Bytes)
    ensures TextField(field + (Quote(s) + rest), field) == Some((s, rest))
  {
    var b := field + (Quote(s) + rest);
    assert b[..|field|] == field;
    assert b[|field|..] == Quote(s) + rest;
    UnquoteQuote(s, rest);
  }

  lemma TimestampTailFormat(t: int)
    ensures TimestampTail(TimestampField + (FormatInt(t) + [CloseBrace])) == Some(t)
  {
    var b := TimestampField + (FormatInt(t) + [CloseBrace]);
    assert b[..|TimestampField|] == TimestampField;
    var rest := b[|TimestampField|..];
    assert rest == FormatInt(t) + [CloseBrace];
    assert rest[..|rest| - 1] == FormatInt(t);
    ParseIntFormat(t);
  }

  /** Decoding an encoded message gives back all three fields. */
  lemma DecodeEncode(m: Message)
    ensures Decode(Encode(m)) == Some(m)
  {
    var tail := TimestampField + (FormatInt(m.timestamp) + [CloseBrace]);
    var afterSender := ContentField + (Quote(m.content) + tail);
    TextFieldQuote(SenderField, m.sender, afterSender);
    TextFieldQuote(ContentField, m.content, tail);
    TimestampTailFormat(m.timestamp);
  }

  lemma DecodeOrZeroEncode(m: Message)
    ensures DecodeOrZero(Encode(m)) == m
  {
    DecodeEncode(m);
  }

  /** Bytes that do not open with `{` (a marshalled private key opens with 0x08) do not decode. */
  lemma DecodeNeedsBrace(b: Bytes)
    requires b == [] || b[0] != OpenBrace
    ensures Decode(b) == None
    ensures DecodeOrZero(b) == ZeroMessage
  {
    assert SenderField[0] == OpenBrace;
    assert !StartsWith(b, SenderField);
  }

  /** Distinct messages never share an encoding. */
  lemma EncodeInjective(m1: Message, m2: Message)
    ensures Encode(m1) == Encode(m2) <==> m1 == m2
  {
    DecodeEncode(m1);
    DecodeEncode(m2);
  }
}
