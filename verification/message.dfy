// The message mapping of the chat client: `decodeMessage` and `getColor`,
// from a received frame to the chat message handed to `onMessage`.

module Message {
  import opened Wrappers
  import opened JsStrings
  import opened Binary
  import opened Utf8
  import opened Frame
  import opened Stt

  /** `LiveMessageType` */
  datatype MessageType = Chat | Gift | System

  /** `LiveMessageColor`: red, green and blue channels. */
  datatype Color = Color(r: int, g: int, b: int)

  /** `LiveMessage` */
  datatype LiveMessage = LiveMessage(kind: MessageType, userName: string, message: string, color: Color)

  const WHITE: Color := Color(255, 255, 255)

  // ---------------------------------------------------------------------
  // JavaScript property access on parsed values

  /** What `value[key]` can evaluate to. */
  datatype Property = Undefined | Null | Defined(value: Value)

  /** `jsonData[key]` on what `sttToJObject` returns: a key the object
      holds gives its value, anything else is undefined. The parser never
      stores null, so no lookup is null and the `dms === null` guard of
      `decodeMessage` never fires. */
  function Get(v: Value, key: string): (p: Property)
    ensures p != Null
    ensures p.Defined? <==> v.Obj? && key in v.fields
  {
    match v
    case Obj(fields) => if key in fields then Defined(fields[key]) else Undefined
    case _ => Undefined
  }

  /** `String(v)` when it does not throw: a string is itself, an array
      joins its elements' strings with commas, a plain object is
      `[object Object]`. */
  function JsText(v: Value): (t: string)
    ensures v.Arr? && |v.items| == 0 ==> t == ""
    ensures v.Arr? && |v.items| == 1 ==> t == JsText(v.items[0])
    decreases v
  {
    match v
    case Scalar(t) => t
    case Arr(items) => Join(seq(|items|, i requires 0 <= i < |items| => JsText(items[i])), ",")
    case Obj(_) => "[object Object]"
  }

  /** Whether converting `v` to a string throws. An object that holds its
      own `toString` key has a string there, which is not callable, so both
      `v.toString()` and the conversion inside an array's `join` raise a
      TypeError; an array throws when one of its elements does. */
  predicate ToStringThrows(v: Value)
    decreases v
  {
    match v
    case Scalar(_) => false
    case Arr(items) => exists i :: 0 <= i < |items| && ToStringThrows(items[i])
    case Obj(fields) => "toString" in fields
  }

  /** Whether `v[key]?.toString()` throws. */
  predicate Throws(v: Value, key: string) {
    var p := Get(v, key);
    p.Defined? && ToStringThrows(p.value)
  }

  /** `p?.toString()`: undefined for an undefined or null property. */
  function PropertyText(p: Property): (t: Option<string>)
    ensures t.Some? <==> p.Defined?
  {
    match p
    case Defined(v) => Some(JsText(v))
    case _ => None
  }

  /** `t || fallback` on an optional string: undefined and the empty
      string both give the fallback. */
  function TextOr(t: Option<string>, fallback: string): (r: string)
    ensures t.Some? && t.value != "" ==> r == t.value
    ensures t.None? || t.value == "" ==> r == fallback
  {
    match t
    case Some(s) => if s == "" then fallback else s
    case None => fallback
  }

  // ---------------------------------------------------------------------
  // Colour

  /** `getColor(type)`: the colour table of codes 1 to 6, white for every
      other code. */
  function GetColor(code: int): (c: Color)
    ensures c == WHITE <==> !(1 <= code <= 6)
    ensures 0 <= c.r <= 255 && 0 <= c.g <= 255 && 0 <= c.b <= 255
  {
    if code == 1 then Color(255, 0, 0)
    else if code == 2 then Color(30, 135, 240)
    else if code == 3 then Color(122, 200, 75)
    else if code == 4 then Color(255, 127, 0)
    else if code == 5 then Color(155, 57, 244)
    else if code == 6 then Color(255, 105, 180)
    else WHITE
  }

  /** The six colours of the table are pairwise different. */
  lemma ColorsDistinct(a: int, b: int)
    requires 1 <= a <= 6 && 1 <= b <= 6 && a != b
    ensures GetColor(a) != GetColor(b)
  {
  }

  /** `parseInt(jsonData['col']?.toString() || '0', 10) || 0`: a missing,
      empty or non-numeric `col` gives 0. */
  function ColorCode(v: Value): (code: int)
    ensures var p := Get(v, "col");
      p.Undefined? || JsText(p.value) == "" ==> code == 0
  {
    assert ParseInt("0") == Some(0) by {
      ParseIntOfString(0, "");
      assert IntToString(0) + "" == "0";
    }
    match ParseInt(TextOr(PropertyText(Get(v, "col")), "0"))
    case None => 0
    case Some(n) => n
  }

  // ---------------------------------------------------------------------
  // Decoding

  /** The parsed value is a chat message: its `type` reads `chatmsg`. */
  predicate IsChat(v: Value) {
    PropertyText(Get(v, "type")) == Some("chatmsg")
  }

  /** The body reaches `onMessage`: its `type` reads `chatmsg`, and none of
      the members the handler converts to a string throws. */
  predicate Delivered(v: Value) {
    !Throws(v, "type") && IsChat(v)
    && !Throws(v, "col") && !Throws(v, "nn") && !Throws(v, "txt")
  }

  /** `decodeMessage(data)`: the message handed to `onMessage`, if any. A
      frame that does not deserialize, or whose body's `type` is not
      `chatmsg`, gives none; the guard on `dms` is kept as written. A
      conversion that throws ends in the handler's `catch`, which drops the
      message. The sender and the text are the strings of `nn` and `txt`,
      empty when the body lacks them, and the colour is that of the `col`
      code. */
  function DecodeMessage(frame: seq<byte>): (r: Option<LiveMessage>)
    ensures r.Some? <==> Deserialize(frame).Some? && Delivered(Parse(Deserialize(frame).value))
    ensures r.Some? ==> var v := Parse(Deserialize(frame).value);
      v.Obj? && r.value.kind == Chat
      && r.value.userName == (if "nn" in v.fields then JsText(v.fields["nn"]) else "")
      && r.value.message == (if "txt" in v.fields then JsText(v.fields["txt"]) else "")
      && r.value.color == GetColor(ColorCode(v))
  {
    match Deserialize(frame)
    case None => None
    case Some(text) =>
      var v := Parse(text);
      if Throws(v, "type") || !IsChat(v) then None
      else if Get(v, "dms") == Null then None
      else if Throws(v, "col") || Throws(v, "nn") || Throws(v, "txt") then None
      else
        PropertyString(v, "nn");
        PropertyString(v, "txt");
        Some(LiveMessage(Chat,
          TextOr(PropertyText(Get(v, "nn")), ""),
          TextOr(PropertyText(Get(v, "txt")), ""),
          GetColor(ColorCode(v))))
  }

  // ---------------------------------------------------------------------
  // A chat frame end to end

  /** The fields of a chat message a server sends, values unescaped. */
  function ChatFields(name: string, text: string, col: int): seq<(string, string)> {
    [("type", "chatmsg"), ("nn", name), ("txt", text), ("col", IntToString(col))]
  }

  /** The STT body of a chat message, values escaped. */
  function ChatBody(name: string, text: string, col: int): string {
    Render(Escaped(ChatFields(name, text, col)))
  }

  /** A chat frame whose length field counts its bytes reaches `onMessage`
      with the sender's name and the text, each read back through the
      parser, and the colour of its code. */
  lemma DecodeChatFrame(name: string, text: string, col: int)
    requires LENGTH_OVERHEAD + |Encode(ChatBody(name, text, col))| < TWO_31
    requires !ToStringThrows(Parse(name)) && !ToStringThrows(Parse(text))
    ensures DecodeMessage(SerializeBytes(ChatBody(name, text, col)))
      == Some(LiveMessage(Chat, JsText(Parse(name)), JsText(Parse(text)), GetColor(col)))
  {
    var body := ChatBody(name, text, col);
    assert Deserialize(SerializeBytes(body)) == Some(body) by {
      ChatBodyStart(name, text, col);
      DeserializeSerializeBytes(body);
    }
    var m := ChatObject(name, text, col);
    ChatOfObject(SerializeBytes(body), body, m, Parse(name), Parse(text), col);
  }

  /** A sender whose conversion throws, such as one that parses to an
      object with a `toString` key, makes the handler drop the message. */
  lemma ThrowingNameDropsChat(name: string, text: string, col: int)
    requires LENGTH_OVERHEAD + |Encode(ChatBody(name, text, col))| < TWO_31
    requires ToStringThrows(Parse(name))
    ensures DecodeMessage(SerializeBytes(ChatBody(name, text, col))) == None
  {
    var body := ChatBody(name, text, col);
    assert Deserialize(SerializeBytes(body)) == Some(body) by {
      ChatBodyStart(name, text, col);
      DeserializeSerializeBytes(body);
    }
    var m := ChatObject(name, text, col);
    DropOfObject(SerializeBytes(body), body, m);
  }

  lemma DropOfObject(frame: seq<byte>, body: string, m: map<string, Value>)
    requires Deserialize(frame) == Some(body) && Parse(body) == Obj(m)
    requires "nn" in m && ToStringThrows(m["nn"])
    ensures DecodeMessage(frame) == None
  {
    assert Throws(Obj(m), "nn");
  }

  /** A frame carrying an object with `type` `chatmsg`, `nn`, `txt` and a
      numeric `col` gives the message of those fields. */
  lemma ChatOfObject(frame: seq<byte>, body: string, m: map<string, Value>, nn: Value, txt: Value, col: int)
    requires Deserialize(frame) == Some(body) && Parse(body) == Obj(m)
    requires "type" in m && m["type"] == Scalar("chatmsg")
    requires "nn" in m && m["nn"] == nn && "txt" in m && m["txt"] == txt
    requires "col" in m && m["col"] == Scalar(IntToString(col))
    requires !ToStringThrows(nn) && !ToStringThrows(txt)
    ensures DecodeMessage(frame) == Some(LiveMessage(Chat, JsText(nn), JsText(txt), GetColor(col)))
  {
    DeliveredObject(m, nn, txt, col);
    DecodeChat(frame, body);
    FieldText(m, "nn", nn);
    FieldText(m, "txt", txt);
    ColorCodeOf(m, col);
  }

  /** A chat object with a numeric colour and non-throwing name and text
      reaches the handler. */
  lemma DeliveredObject(m: map<string, Value>, nn: Value, txt: Value, col: int)
    requires "type" in m && m["type"] == Scalar("chatmsg")
    requires "nn" in m && m["nn"] == nn && "txt" in m && m["txt"] == txt
    requires "col" in m && m["col"] == Scalar(IntToString(col))
    requires !ToStringThrows(nn) && !ToStringThrows(txt)
    ensures Delivered(Obj(m))
  {
  }

  /** `v[key]?.toString() || ''`: the member's string, or the empty string
      when there is no such member. */
  lemma PropertyString(v: Value, key: string)
    ensures TextOr(PropertyText(Get(v, key)), "")
      == (if v.Obj? && key in v.fields then JsText(v.fields[key]) else "")
  {
  }

  /** `m[key]?.toString() || ''` for a key the object holds. */
  lemma FieldText(m: map<string, Value>, key: string, x: Value)
    requires key in m && m[key] == x
    ensures TextOr(PropertyText(Get(Obj(m), key)), "") == JsText(x)
  {
  }

  /** The colour code of an object whose `col` is a number's text. */
  lemma ColorCodeOf(m: map<string, Value>, col: int)
    requires "col" in m && m["col"] == Scalar(IntToString(col))
    ensures ColorCode(Obj(m)) == col
  {
    ParseIntOfString(col, "");
    assert IntToString(col) + "" == IntToString(col);
  }

  /** The message a chat frame gives, field by field. */
  lemma DecodeChat(frame: seq<byte>, body: string)
    requires Deserialize(frame) == Some(body) && Delivered(Parse(body))
    ensures var v := Parse(body);
      DecodeMessage(frame) == Some(LiveMessage(Chat,
        TextOr(PropertyText(Get(v, "nn")), ""),
        TextOr(PropertyText(Get(v, "txt")), ""),
        GetColor(ColorCode(v))))
  {
  }

  lemma ChatBodyStart(name: string, text: string, col: int)
    ensures |ChatBody(name, text, col)| > 0 && ChatBody(name, text, col)[0] == 't'
  {
    var fields := Escaped(ChatFields(name, text, col));
    assert fields[0].0 == "type";
    assert Render(fields) == Body(fields[0]) + "/" + Render(fields[1..]);
  }

  /** The object a chat body parses to. */
  lemma ChatObject(name: string, text: string, col: int) returns (m: map<string, Value>)
    ensures Parse(ChatBody(name, text, col)) == Obj(m)
    ensures "type" in m && m["type"] == Scalar("chatmsg")
    ensures "nn" in m && m["nn"] == Parse(name)
    ensures "txt" in m && m["txt"] == Parse(text)
    ensures "col" in m && m["col"] == Scalar(IntToString(col))
  {
    ChatKeys();
    m := RecordOfFour("type", "chatmsg", "nn", name, "txt", text, "col", IntToString(col));
    ParseChatmsg();
    ParseNumber(col);
  }

  lemma ChatKeys()
    ensures NoAt("type") && NoSlash("type") && NoAt("nn") && NoSlash("nn")
    ensures NoAt("txt") && NoSlash("txt") && NoAt("col") && NoSlash("col")
    ensures "type" != "nn" && "type" != "txt" && "type" != "col"
    ensures "nn" != "txt" && "nn" != "col" && "txt" != "col"
  {
    assert |"nn"| != |"type"| && |"nn"| != |"txt"| && |"nn"| != |"col"| && |"type"| != |"txt"|;
    assert |"type"| != |"col"|;
    assert "txt"[0] != "col"[0];
  }

  lemma ParseChatmsg()
    ensures Parse("chatmsg") == Scalar("chatmsg")
  {
    NotIncludesWithoutLead("chatmsg", "//");
    ParsePlain("chatmsg");
  }

  lemma ParseNumber(n: int)
    ensures Parse(IntToString(n)) == Scalar(IntToString(n))
  {
    NumberIsPlain(n);
    ParsePlain(IntToString(n));
  }

  /** A rendered record of four escaped fields with distinct plain keys. */
  lemma RecordOfFour(k0: string, v0: string, k1: string, v1: string, k2: string, v2: string, k3: string, v3: string)
    returns (m: map<string, Value>)
    requires NoAt(k0) && NoSlash(k0) && NoAt(k1) && NoSlash(k1)
    requires NoAt(k2) && NoSlash(k2) && NoAt(k3) && NoSlash(k3)
    requires k0 != k1 && k0 != k2 && k0 != k3 && k1 != k2 && k1 != k3 && k2 != k3
    ensures Parse(Render(Escaped([(k0, v0), (k1, v1), (k2, v2), (k3, v3)]))) == Obj(m)
    ensures k0 in m && m[k0] == Parse(v0) && k1 in m && m[k1] == Parse(v1)
    ensures k2 in m && m[k2] == Parse(v2) && k3 in m && m[k3] == Parse(v3)
  {
    var fields := [(k0, v0), (k1, v1), (k2, v2), (k3, v3)];
    m := Assign(map[], Parsed(fields));
    assert Parse(Render(Escaped(fields))) == Obj(m) by {
      assert forall i :: 0 <= i < |fields| ==> NoAt(fields[i].0) && NoSlash(fields[i].0);
      ParseEscapedRender(fields);
    }
    ParsedFour(fields);
    AssignFour(k0, Parse(v0), k1, Parse(v1), k2, Parse(v2), k3, Parse(v3));
  }

  lemma ParsedFour(fields: seq<(string, string)>)
    requires |fields| == 4
    ensures Parsed(fields) == [(fields[0].0, Parse(fields[0].1)), (fields[1].0, Parse(fields[1].1)),
      (fields[2].0, Parse(fields[2].1)), (fields[3].0, Parse(fields[3].1))]
  {
  }

  lemma AssignFour(k0: string, x0: Value, k1: string, x1: Value, k2: string, x2: Value, k3: string, x3: Value)
    requires k0 != k1 && k0 != k2 && k0 != k3 && k1 != k2 && k1 != k3 && k2 != k3
    ensures var m := Assign(map[], [(k0, x0), (k1, x1), (k2, x2), (k3, x3)]);
      k0 in m && m[k0] == x0 && k1 in m && m[k1] == x1 && k2 in m && m[k2] == x2 && k3 in m && m[k3] == x3
  {
    var entries := [(k0, x0), (k1, x1), (k2, x2), (k3, x3)];
    AssignLast(map[], entries, 0);
    AssignLast(map[], entries, 1);
    AssignLast(map[], entries, 2);
    AssignLast(map[], entries, 3);
  }

  /** A number's text holds no `@` and no `/`. */
  lemma NumberIsPlain(n: int)
    ensures NoAt(IntToString(n)) && !Includes(IntToString(n), "//")
  {
    var s := IntToString(n);
    assert forall i :: 0 <= i < |s| ==> s[i] != '/' && s[i] != '@' by {
      if n < 0 {
        var ds := NatToString(-n);
        assert s == "-" + ds;
        forall i | 0 <= i < |s| ensures s[i] != '/' && s[i] != '@' {
          if i > 0 {
            assert s[i] == ds[i - 1];
          }
        }
      }
    }
    NotIncludesWithoutLead(s, "//");
  }

  /** A name and a text without `@` and without `//` arrive unchanged. */
  lemma DecodePlainChat(name: string, text: string, col: int)
    requires NoAt(name) && !Includes(name, "//") && NoAt(text) && !Includes(text, "//")
    requires LENGTH_OVERHEAD + |Encode(ChatBody(name, text, col))| < TWO_31
    ensures DecodeMessage(SerializeBytes(ChatBody(name, text, col)))
      == Some(LiveMessage(Chat, name, text, GetColor(col)))
  {
    ParsePlain(name);
    ParsePlain(text);
    DecodeChatFrame(name, text, col);
  }

  /** A name holding `//` is read as an array and shown joined with a
      comma: the sender `a//b` arrives as `a,b`. */
  lemma SlashedNameBecomesList(a: string, b: string, text: string, col: int)
    requires a != "" && b != "" && NoAt(a) && NoSlash(a) && NoAt(b) && NoSlash(b)
    requires !ToStringThrows(Parse(text))
    requires LENGTH_OVERHEAD + |Encode(ChatBody(a + "//" + b, text, col))| < TWO_31
    ensures DecodeMessage(SerializeBytes(ChatBody(a + "//" + b, text, col)))
      == Some(LiveMessage(Chat, a + "," + b, JsText(Parse(text)), GetColor(col)))
  {
    ParseTwoItems(a, b);
    DecodeChatFrame(a + "//" + b, text, col);
  }

  /** Two plain pieces around `//` parse to an array of two strings, whose
      text joins them with a comma. */
  lemma ParseTwoItems(a: string, b: string)
    requires a != "" && b != "" && NoAt(a) && NoSlash(a) && NoAt(b) && NoSlash(b)
    ensures !ToStringThrows(Parse(a + "//" + b))
    ensures JsText(Parse(a + "//" + b)) == a + "," + b
  {
    ParseTwoPieces(a, b);
    assert !ToStringThrows(Arr([Scalar(a), Scalar(b)]));
    TextOfPair(a, b);
  }

  lemma ParseTwoPieces(a: string, b: string)
    requires a != "" && b != "" && NoAt(a) && NoSlash(a) && NoAt(b) && NoSlash(b)
    ensures Parse(a + "//" + b) == Arr([Scalar(a), Scalar(b)])
  {
    var xs := [a, b];
    assert Join(xs, "//") == a + "//" + b by {
      assert xs[1..] == [b];
    }
    NotIncludesWithoutLead(a, "//");
    NotIncludesWithoutLead(b, "//");
    ParseJoin(xs);
    PlainScalar(a);
    PlainScalar(b);
  }

  /** `String([x, y])` for two strings. */
  lemma TextOfPair(x: string, y: string)
    ensures JsText(Arr([Scalar(x), Scalar(y)])) == x + "," + y
  {
    var items := [Scalar(x), Scalar(y)];
    assert seq(2, i requires 0 <= i < 2 => JsText(items[i])) == [x, y];
    assert Join([x, y], ",") == x + "," + Join([y], ",");
  }

  /** Text without `@` and `/` parses to itself. */
  lemma PlainScalar(a: string)
    requires NoAt(a) && NoSlash(a)
    ensures Parse(a) == Scalar(a)
  {
    NotIncludesWithoutLead(a, "//");
    ParsePlain(a);
  }
}
