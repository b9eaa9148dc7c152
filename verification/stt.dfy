// STT, the key-value text format of Douyu frame bodies, as the client reads
// it: `sttToJObject` and `unescapeSlashAt`.

module Stt {
  import opened JsStrings

  /** What `sttToJObject` returns: a string, an array, or a plain object.
      The object is a lookup table; the order in which its keys were
      inserted is not modelled, since the client only looks keys up. */
  datatype Value = Scalar(text: string) | Arr(items: seq<Value>) | Obj(fields: map<string, Value>)

  // ---------------------------------------------------------------------
  // Escaping

  predicate NoAt(s: string) {
    forall i :: 0 <= i < |s| ==> s[i] != '@'
  }

  /** `unescapeSlashAt(str)`: every `@S` becomes `/`, then every `@A`
      becomes `@`, one pass each. */
  function Unescape(s: string): (t: string)
    ensures |t| <= |s|
    ensures Includes(s, "@S") || Includes(s, "@A") ==> |t| < |s|
    ensures NoAt(s) ==> t == s
  {
    UnescapeLength(s);
    ReplaceAll(ReplaceAll(s, "@S", "/"), "@A", "@")
  }

  lemma UnescapeLength(s: string)
    ensures var t := ReplaceAll(ReplaceAll(s, "@S", "/"), "@A", "@");
      (Includes(s, "@S") || Includes(s, "@A") ==> |t| < |s|) &&
      (NoAt(s) ==> t == s)
  {
    if NoAt(s) {
      NotIncludesWithoutLead(s, "@S");
      NotIncludesWithoutLead(s, "@A");
    }
  }

  /** The escaped form of one character. */
  function EscapeChar(c: char): (t: string)
    ensures 1 <= |t| <= 2
  {
    if c == '/' then "@S" else if c == '@' then "@A" else [c]
  }

  /** The escaping a writer of STT applies to a value: `/` becomes `@S` and
      `@` becomes `@A`. */
  function Escape(s: string): (t: string)
    ensures |t| >= |s|
  {
    if |s| == 0 then "" else EscapeChar(s[0]) + Escape(s[1..])
  }

  lemma UnescapeSlash(x: string)
    ensures Unescape("@S" + x) == "/" + Unescape(x)
  {
    var x1 := ReplaceAll(x, "@S", "/");
    ReplaceAllAtMatch("@S", x, "/");
    ReplaceAllSkip('/', x1, "@A", "@");
  }

  lemma UnescapeAt(x: string)
    ensures Unescape("@A" + x) == "@" + Unescape(x)
  {
    var x1 := ReplaceAll(x, "@S", "/");
    assert "@A" + x == ['@'] + (['A'] + x);
    assert "@S"[1..] == "S";
    ReplaceAllSkip('@', ['A'] + x, "@S", "/");
    ReplaceAllSkip('A', x, "@S", "/");
    assert ['@'] + (['A'] + x1) == "@A" + x1;
    ReplaceAllAtMatch("@A", x1, "@");
  }

  lemma UnescapeOther(c: char, x: string)
    requires c != '@'
    ensures Unescape([c] + x) == [c] + Unescape(x)
  {
    var x1 := ReplaceAll(x, "@S", "/");
    ReplaceAllSkip(c, x, "@S", "/");
    ReplaceAllSkip(c, x1, "@A", "@");
  }

  /** `unescapeSlashAt` undoes the escaping exactly, for every string. */
  lemma {:induction false} UnescapeEscape(s: string)
    ensures Unescape(Escape(s)) == s
  {
    if |s| == 0 {
      assert Escape(s) == "";
      assert Unescape("") == "";
    } else {
      var x := Escape(s[1..]);
      UnescapeEscape(s[1..]);
      if s[0] == '/' {
        UnescapeSlash(x);
      } else if s[0] == '@' {
        UnescapeAt(x);
      } else {
        UnescapeOther(s[0], x);
      }
      assert s == [s[0]] + s[1..];
    }
  }

  /** Unescaping twice is not unescaping once: `@AS` is the escaped form of
      the text `@S`, which a second pass turns into `/`. */
  lemma UnescapeNotIdempotent()
    ensures Unescape("@AS") == "@S"
    ensures Unescape("@S") == "/"
  {
    UnescapeOther('S', "");
    UnescapeAt("S");
    assert "@A" + "S" == "@AS";
    assert ['@'] + "S" == "@S";
    UnescapeSlash("");
    assert "@S" + "" == "@S";
  }

  // ---------------------------------------------------------------------
  // Parsing

  /** The pieces of a split that are not empty, in order. */
  function NonEmpty(parts: seq<string>): (r: seq<string>)
    ensures |r| <= |parts|
    ensures forall i :: 0 <= i < |r| ==> r[i] != "" && r[i] in parts
    ensures forall x :: x in parts && x != "" ==> x in r
  {
    if |parts| == 0 then []
    else if parts[0] == "" then NonEmpty(parts[1..])
    else [parts[0]] + NonEmpty(parts[1..])
  }

  /** The key of a field: the text before its first `@=`. */
  function FieldKey(field: string): (k: string)
    ensures k <= field
  {
    Split(field, "@=")[0]
  }

  /** The raw value of a field: the text between its first and second `@=`,
      or the empty string when it has no `@=`. */
  function FieldRaw(field: string): (raw: string)
    ensures raw == "" || |raw| + 2 <= |field|
    ensures !Includes(field, "@=") ==> raw == ""
  {
    var tokens := Split(field, "@=");
    if |tokens| > 1 then tokens[1] else ""
  }

  /** `sttToJObject(str)`: the first rule that applies decides. A string
      holding `//` is an array of its non-empty `//`-pieces; one holding
      `@=` is an object of its non-empty `/`-fields; one holding `@A=` is
      unescaped and read again; anything else is an unescaped scalar. Every
      recursive call is on a strictly shorter string. */
  function Parse(s: string): (v: Value)
    ensures v.Obj? ==> |v.fields| >= 1
    decreases |s|, 1
  {
    if Includes(s, "//") then ParseArray(s)
    else if Includes(s, "@=") then ParseRecord(s)
    else if Includes(s, "@A=") then
      assert "@A" + "=" == "@A=";
      IncludesPrefixOfPattern(s, "@A", "=");
      Parse(Unescape(s))
    else Scalar(Unescape(s))
  }

  /** The array rule: the parses of the non-empty `//`-pieces, in order. */
  function ParseArray(s: string): (v: Value)
    requires Includes(s, "//")
    ensures v.Arr? && |v.items| <= |Split(s, "//")|
    decreases |s|, 0
  {
    var parts := NonEmpty(Split(s, "//"));
    Arr(Items(s, parts))
  }

  /** The parses of `parts`, in order; `s` is the text the parts come
      from, which they are shorter than. */
  function Items(s: string, parts: seq<string>): (vs: seq<Value>)
    requires forall i :: 0 <= i < |parts| ==> |parts[i]| < |s|
    ensures |vs| == |parts|
    ensures forall i :: 0 <= i < |parts| ==> vs[i] == Parse(parts[i])
    decreases |s|, 0, |parts|
  {
    if |parts| == 0 then [] else [Parse(parts[0])] + Items(s, parts[1..])
  }

  /** The object rule: each non-empty `/`-field assigned in order, its key
      the text before the first `@=` and its value the parse of its raw
      value unescaped. */
  function ParseRecord(s: string): (v: Value)
    requires Includes(s, "@=")
    ensures v.Obj? && |v.fields| >= 1
    decreases |s|, 0
  {
    var fields := NonEmpty(Split(s, "/"));
    NonEmptyFields(s);
    Obj(Assign(map[], Entries(s, fields)))
  }

  /** The entries the object rule assigns for `fields`, in order; `s` is
      the text the fields come from, which bounds their length. */
  function Entries(s: string, fields: seq<string>): (es: seq<(string, Value)>)
    requires forall i :: 0 <= i < |fields| ==> fields[i] != "" && |fields[i]| <= |s|
    ensures |es| == |fields|
    ensures forall i :: 0 <= i < |fields| ==>
      es[i] == (FieldKey(fields[i]), Parse(Unescape(FieldRaw(fields[i]))))
    decreases |s|, 0, |fields|
  {
    if |fields| == 0 then []
    else [(FieldKey(fields[0]), Parse(Unescape(FieldRaw(fields[0]))))] + Entries(s, fields[1..])
  }

  /** A string holding `@=` has at least one non-empty `/`-field. */
  lemma NonEmptyFields(s: string)
    requires Includes(s, "@=")
    ensures |NonEmpty(Split(s, "/"))| >= 1
  {
    var parts := Split(s, "/");
    JoinSplit(s, "/");
    var i := IncludesGivesOccurs(s, "@=");
    assert s[i] == '@';
    var j := NonEmptyPartAt(parts, "/", i);
    assert parts[j] in parts;
  }

  /** A character of a join that is not a separator character lies in a
      non-empty piece. */
  lemma {:induction false} NonEmptyPartAt(parts: seq<string>, sep: string, i: int) returns (j: int)
    requires 0 <= i < |Join(parts, sep)| && Join(parts, sep)[i] !in sep
    ensures 0 <= j < |parts| && parts[j] != ""
    decreases |parts|
  {
    if |parts| == 1 {
      j := 0;
    } else if i < |parts[0]| {
      j := 0;
    } else {
      var rest := Join(parts[1..], sep);
      assert Join(parts, sep) == parts[0] + sep + rest;
      assert i >= |parts[0]| + |sep|;
      var k := NonEmptyPartAt(parts[1..], sep, i - |parts[0]| - |sep|);
      j := k + 1;
    }
  }

  /** Fields assigned left to right into an object: a repeated key keeps
      the value assigned last. */
  function Assign(m: map<string, Value>, entries: seq<(string, Value)>): (r: map<string, Value>)
    ensures forall k :: k in m ==> k in r
    ensures forall i :: 0 <= i < |entries| ==> entries[i].0 in r
    ensures forall k :: k in r ==> k in m || exists i :: 0 <= i < |entries| && entries[i].0 == k
    ensures |entries| >= 1 ==> |r| >= 1
    decreases |entries|
  {
    if |entries| == 0 then m
    else Assign(m[entries[0].0 := entries[0].1], entries[1..])
  }

  /** The value assigned last to a key is the one the object keeps. */
  lemma {:induction false} AssignLast(m: map<string, Value>, entries: seq<(string, Value)>, i: int)
    requires 0 <= i < |entries|
    requires forall j :: i < j < |entries| ==> entries[j].0 != entries[i].0
    ensures entries[i].0 in Assign(m, entries) && Assign(m, entries)[entries[i].0] == entries[i].1
    decreases |entries|
  {
    var m' := m[entries[0].0 := entries[0].1];
    if i == 0 {
      AssignKeeps(m', entries[1..], entries[0].0);
    } else {
      AssignLast(m', entries[1..], i - 1);
    }
  }

  /** A key no entry assigns keeps its value. */
  lemma {:induction false} AssignKeeps(m: map<string, Value>, entries: seq<(string, Value)>, k: string)
    requires k in m
    requires forall j :: 0 <= j < |entries| ==> entries[j].0 != k
    ensures k in Assign(m, entries) && Assign(m, entries)[k] == m[k]
    decreases |entries|
  {
    if |entries| > 0 {
      AssignKeeps(m[entries[0].0 := entries[0].1], entries[1..], k);
    }
  }

  // ---------------------------------------------------------------------
  // Properties of the parser

  predicate NoSlash(s: string) {
    forall i :: 0 <= i < |s| ==> s[i] != '/'
  }

  /** Pieces that join unambiguously with `//`: none empty, none holding
      `//`, and none but the last ending in `/` (which would pair with the
      separator after it). */
  predicate Joinable(xs: seq<string>) {
    (forall i :: 0 <= i < |xs| ==> xs[i] != "" && !Includes(xs[i], "//"))
    && (forall i :: 0 <= i < |xs| - 1 ==> xs[i][|xs[i]| - 1] != '/')
  }

  /** The array rule as a round trip: joining two or more joinable pieces
      with `//` and parsing gives the array of the pieces' parses, in
      order. */
  lemma ParseJoin(xs: seq<string>)
    requires |xs| >= 2 && Joinable(xs)
    ensures var v := Parse(Join(xs, "//"));
      v.Arr? && |v.items| == |xs| && forall i :: 0 <= i < |xs| ==> v.items[i] == Parse(xs[i])
  {
    var s := Join(xs, "//");
    SplitJoin(xs);
    NonEmptyKeepsAll(xs);
    assert Parse(s) == Arr(Items(s, xs));
  }

  /** Splitting the join of joinable pieces gives the pieces back. */
  lemma {:induction false} SplitJoin(xs: seq<string>)
    requires |xs| >= 1 && Joinable(xs)
    ensures Split(Join(xs, "//"), "//") == xs
    decreases |xs|
  {
    if |xs| == 1 {
      SplitFree(xs[0], "//");
    } else {
      var rest := xs[1..];
      assert Joinable(rest) by {
        assert forall i :: 0 <= i < |rest| ==> rest[i] == xs[i + 1];
      }
      SplitJoin(rest);
      assert Join(xs, "//") == xs[0] + "//" + Join(rest, "//");
      SplitAfterFree(xs[0], Join(rest, "//"));
      assert [xs[0]] + rest == xs;
    }
  }

  lemma NonEmptyKeepsAll(xs: seq<string>)
    requires forall i :: 0 <= i < |xs| ==> xs[i] != ""
    ensures NonEmpty(xs) == xs
  {
    if |xs| > 0 {
      NonEmptyKeepsAll(xs[1..]);
      assert [xs[0]] + xs[1..] == xs;
    }
  }

  /** Text without `@` and without `//` parses to itself as a scalar. */
  lemma ParsePlain(s: string)
    requires NoAt(s) && !Includes(s, "//")
    ensures Parse(s) == Scalar(s)
  {
    NotIncludesWithoutLead(s, "@=");
    NotIncludesWithoutLead(s, "@A=");
  }

  /** The fields of an object: its keys are exactly the keys of its
      non-empty `/`-fields, and the value under a key is the parse of the
      unescaped raw value of the last field with that key. */
  lemma ObjectFields(s: string, i: int)
    requires Includes(s, "@=") && !Includes(s, "//")
    requires var fields := NonEmpty(Split(s, "/"));
      0 <= i < |fields| && forall j :: i < j < |fields| ==> FieldKey(fields[j]) != FieldKey(fields[i])
    ensures var fields := NonEmpty(Split(s, "/"));
      Parse(s).Obj? &&
      (forall k :: k in Parse(s).fields <==> exists j :: 0 <= j < |fields| && FieldKey(fields[j]) == k) &&
      FieldKey(fields[i]) in Parse(s).fields &&
      Parse(s).fields[FieldKey(fields[i])] == Parse(Unescape(FieldRaw(fields[i])))
  {
    var fields := NonEmpty(Split(s, "/"));
    var entries := Entries(s, fields);
    var r := Assign(map[], entries);
    assert Parse(s) == Obj(r) by {
      assert Parse(s) == ParseRecord(s);
    }
    assert forall k :: k in r <==> exists j :: 0 <= j < |fields| && FieldKey(fields[j]) == k by {
      forall k
        ensures k in r <==> exists j :: 0 <= j < |fields| && FieldKey(fields[j]) == k
      {
        AssignedKeys(fields, entries, k);
      }
    }
    assert FieldKey(fields[i]) in r && r[FieldKey(fields[i])] == Parse(Unescape(FieldRaw(fields[i]))) by {
      AssignLast(map[], entries, i);
    }
  }

  /** The keys an object gets are the keys of its fields. */
  lemma AssignedKeys(fields: seq<string>, entries: seq<(string, Value)>, k: string)
    requires |entries| == |fields| && forall j :: 0 <= j < |fields| ==> entries[j].0 == FieldKey(fields[j])
    ensures k in Assign(map[], entries) <==> exists j :: 0 <= j < |fields| && FieldKey(fields[j]) == k
  {
    if k in Assign(map[], entries) {
      var j :| 0 <= j < |entries| && entries[j].0 == k;
      assert FieldKey(fields[j]) == k;
    }
    if exists j :: 0 <= j < |fields| && FieldKey(fields[j]) == k {
      var j :| 0 <= j < |fields| && FieldKey(fields[j]) == k;
      assert entries[j].0 == k;
    }
  }

  // ---------------------------------------------------------------------
  // Rendering a flat record

  /** A field as it appears on the wire, without its closing `/`. */
  function Body(field: (string, string)): string {
    field.0 + "@=" + field.1
  }

  /** A flat record on the wire: each key, `@=`, its raw (escaped) value
      and a closing `/`. */
  function Render(fields: seq<(string, string)>): string {
    if |fields| == 0 then "" else Body(fields[0]) + "/" + Render(fields[1..])
  }

  /** A field that renders unambiguously: a key without `@` or `/`, and a
      raw value without `/` or `@=`. */
  predicate WellFormed(field: (string, string)) {
    NoAt(field.0) && NoSlash(field.0) && NoSlash(field.1) && !Includes(field.1, "@=")
  }

  lemma FieldOfBody(field: (string, string))
    requires WellFormed(field)
    ensures FieldKey(Body(field)) == field.0 && FieldRaw(Body(field)) == field.1
  {
    SplitAfterPlain(field.0, "@=", field.1);
    SplitFree(field.1, "@=");
  }

  lemma BodyHasNoSlash(field: (string, string))
    requires WellFormed(field)
    ensures NoSlash(Body(field)) && Body(field) != ""
  {
    var b := Body(field);
    assert b[|field.0|] == '@';
    forall i | 0 <= i < |b| ensures b[i] != '/' {
      if i < |field.0| {
        assert b[i] == field.0[i];
      } else if i >= |field.0| + 2 {
        assert b[i] == field.1[i - |field.0| - 2];
      }
    }
  }

  /** The rendered fields without their closing slashes. */
  function Bodies(fields: seq<(string, string)>): (bs: seq<string>)
    ensures |bs| == |fields|
    ensures forall i :: 0 <= i < |fields| ==> bs[i] == Body(fields[i])
  {
    if |fields| == 0 then [] else [Body(fields[0])] + Bodies(fields[1..])
  }

  lemma {:induction false} SplitRender(fields: seq<(string, string)>)
    requires forall i :: 0 <= i < |fields| ==> WellFormed(fields[i])
    ensures Split(Render(fields), "/") == Bodies(fields) + [""]
    decreases |fields|
  {
    if |fields| == 0 {
      assert Render(fields) == "";
    } else {
      var rest := fields[1..];
      BodyHasNoSlash(fields[0]);
      SplitAfterPlain(Body(fields[0]), "/", Render(rest));
      SplitRender(rest);
      assert Bodies(fields) + [""] == [Body(fields[0])] + (Bodies(rest) + [""]);
    }
  }

  lemma {:induction false} NonEmptyBodies(fields: seq<(string, string)>)
    requires forall i :: 0 <= i < |fields| ==> WellFormed(fields[i])
    ensures NonEmpty(Bodies(fields) + [""]) == Bodies(fields)
    decreases |fields|
  {
    var bodies := Bodies(fields);
    if |fields| == 0 {
      assert bodies + [""] == [""];
    } else {
      BodyHasNoSlash(fields[0]);
      NonEmptyBodies(fields[1..]);
      assert (bodies + [""])[1..] == Bodies(fields[1..]) + [""];
    }
  }

  /** A slash-free string followed by one slash holds no `//`. */
  lemma NoDoubleSlash(g: string)
    requires NoSlash(g)
    ensures !Includes(g + "/", "//")
  {
    if Includes(g + "/", "//") {
      IncludesConcat(g, "/", "//");
      NotIncludesWithoutLead(g, "//");
    }
  }

  lemma {:induction false} RenderNoDoubleSlash(fields: seq<(string, string)>)
    requires forall i :: 0 <= i < |fields| ==> WellFormed(fields[i])
    ensures !Includes(Render(fields), "//")
    ensures |Render(fields)| > 0 ==> Render(fields)[0] != '/'
    decreases |fields|
  {
    if |fields| > 0 {
      var b := Body(fields[0]);
      var rest := Render(fields[1..]);
      BodyHasNoSlash(fields[0]);
      RenderNoDoubleSlash(fields[1..]);
      NoDoubleSlash(b);
      assert Render(fields) == (b + "/") + rest;
      if Includes((b + "/") + rest, "//") {
        IncludesConcat(b + "/", rest, "//");
      }
      assert Render(fields)[0] == b[0];
    }
  }

  /** The entries a rendered record should give: each key with the parse of
      its unescaped raw value. */
  function FieldValues(fields: seq<(string, string)>): (es: seq<(string, Value)>)
    ensures |es| == |fields|
    ensures forall i :: 0 <= i < |fields| ==> es[i] == (fields[i].0, Parse(Unescape(fields[i].1)))
  {
    if |fields| == 0 then []
    else [(fields[0].0, Parse(Unescape(fields[0].1)))] + FieldValues(fields[1..])
  }

  /** Reading a rendered flat record gives the object of its fields, each
      value the parse of its unescaped raw value, a repeated key keeping
      the last one. */
  lemma ParseRender(fields: seq<(string, string)>)
    requires |fields| >= 1
    requires forall i :: 0 <= i < |fields| ==> WellFormed(fields[i])
    ensures Parse(Render(fields)) == Obj(Assign(map[], FieldValues(fields)))
  {
    RenderIsRecord(fields);
    RecordOfRender(fields);
  }

  /** A rendered record falls under the object rule. */
  lemma RenderIsRecord(fields: seq<(string, string)>)
    requires |fields| >= 1
    requires forall i :: 0 <= i < |fields| ==> WellFormed(fields[i])
    ensures Includes(Render(fields), "@=") && Parse(Render(fields)) == ParseRecord(Render(fields))
  {
    RenderNoDoubleSlash(fields);
    RenderHasAssign(fields);
  }

  lemma RecordOfRender(fields: seq<(string, string)>)
    requires Includes(Render(fields), "@=")
    requires forall i :: 0 <= i < |fields| ==> WellFormed(fields[i])
    ensures ParseRecord(Render(fields)) == Obj(Assign(map[], FieldValues(fields)))
  {
    var s := Render(fields);
    assert NonEmpty(Split(s, "/")) == Bodies(fields) by {
      SplitRender(fields);
      NonEmptyBodies(fields);
    }
    EntriesOfBodies(s, fields);
  }

  lemma EntriesOfBodies(s: string, fields: seq<(string, string)>)
    requires forall i :: 0 <= i < |fields| ==> WellFormed(fields[i])
    requires forall i :: 0 <= i < |fields| ==> |Body(fields[i])| <= |s|
    ensures Entries(s, Bodies(fields)) == FieldValues(fields)
  {
    var bodies := Bodies(fields);
    forall i | 0 <= i < |fields|
      ensures bodies[i] != ""
    {
      BodyHasNoSlash(fields[i]);
    }
    var es := Entries(s, bodies);
    forall i | 0 <= i < |fields|
      ensures es[i] == FieldValues(fields)[i]
    {
      FieldOfBody(fields[i]);
    }
  }

  lemma RenderHasAssign(fields: seq<(string, string)>)
    requires |fields| >= 1
    ensures Includes(Render(fields), "@=")
  {
    PatternAfterKey(fields[0].0, "@=", fields[0].1, "/", Render(fields[1..]));
  }

  lemma PatternAfterKey(k: string, p: string, v: string, sl: string, rest: string)
    ensures Includes(k + p + v + sl + rest, p)
  {
    var s := k + p + v + sl + rest;
    assert s[|k|..|k| + |p|] == p;
    IncludesAt(s, p, |k|);
  }

  /** The object rule unescapes a raw value and the scalar rule unescapes
      it again: the field `k@=@AS/`, whose value was escaped from the text
      `@S`, reads as a slash. */
  lemma ParseUnescapesTwice()
    ensures Parse("k@=@AS/") == Obj(map["k" := Scalar("/")])
  {
    var fields := [("k", "@AS")];
    assert Render(fields) == "k@=@AS/" by {
      assert Render(fields[1..]) == "";
    }
    assert !Includes("@AS", "@=") by {
      assert "@AS"[1..] == "AS" && "AS"[1..] == "S";
      assert !Includes("S", "@=");
      assert "AS"[..2][0] != "@="[0];
      assert "@AS"[..2][1] != "@="[1];
    }
    ParseRender(fields);
    UnescapeNotIdempotent();
    assert !Includes("@S", "//") && !Includes("@S", "@=") && !Includes("@S", "@A=") by {
      assert "@S"[1..] == "S";
      assert !Includes("S", "//") && !Includes("S", "@=");
      assert "@S"[..2][0] != "//"[0];
      assert "@S"[..2][1] != "@="[1];
    }
    assert Parse("@S") == Scalar("/");
    assert FieldValues(fields) == [("k", Scalar("/"))] by {
      assert FieldValues(fields)[0] == ("k", Parse("@S"));
    }
    assert Assign(map[], FieldValues(fields)) == map["k" := Scalar("/")] by {
      assert FieldValues(fields)[1..] == [];
    }
  }

  // ---------------------------------------------------------------------
  // Escaped records

  /** An escaped character holds no `/` and does not end in `@`. */
  lemma EscapeCharShape(c: char)
    ensures NoSlash(EscapeChar(c)) && !Includes(EscapeChar(c), "@=")
    ensures EscapeChar(c)[|EscapeChar(c)| - 1] != '@'
  {
    var t := EscapeChar(c);
    if |t| == 2 {
      assert t[..2][1] != "@="[1];
      assert t[1..] == [t[1]];
      assert !Includes([t[1]], "@=");
    } else {
      assert !Includes(t[1..], "@=");
    }
  }

  /** Escaped text holds no `/` and no `@=`, so it is a well-formed raw
      value. */
  lemma {:induction false} EscapeShape(v: string)
    ensures NoSlash(Escape(v)) && !Includes(Escape(v), "@=")
    decreases |v|
  {
    if |v| > 0 {
      var a := EscapeChar(v[0]);
      var b := Escape(v[1..]);
      EscapeCharShape(v[0]);
      EscapeShape(v[1..]);
      assert Escape(v) == a + b;
      forall i | 0 <= i < |a + b| ensures (a + b)[i] != '/' {
        if i >= |a| {
          assert (a + b)[i] == b[i - |a|];
        }
      }
      if Includes(a + b, "@=") {
        IncludesConcat(a, b, "@=");
      }
    }
  }

  /** Escaped text holds `@A=` exactly where the text held `@=`. */
  lemma {:induction false} EscapeAssignMark(t: string)
    ensures Includes(Escape(t), "@A=") <==> Includes(t, "@=")
    decreases |t|
  {
    if |t| > 0 {
      var c := t[0];
      var u := t[1..];
      var e := Escape(u);
      EscapeAssignMark(u);
      assert Escape(t) == EscapeChar(c) + e;
      assert t == [c] + u;
      if c == '@' {
        assert Escape(t) == ['@'] + (['A'] + e);
        EscapeStartsAssign(u);
        MarkAfterAt(u, e);
      } else if c == '/' {
        assert Escape(t) == ['@'] + (['S'] + e);
        MarkAfterSlash(u, e);
      } else {
        assert Escape(t) == [c] + e;
        MarkAfterOther(c, u, e);
      }
    }
  }

  /** The step of EscapeAssignMark for a leading `@`, escaped as `@A`:
      the `@A=` it may start matches the `@=` the text starts with. */
  lemma MarkAfterAt(u: string, e: string)
    requires Includes(e, "@A=") <==> Includes(u, "@=")
    requires (|e| > 0 && e[0] == '=') <==> (|u| > 0 && u[0] == '=')
    ensures Includes(['@'] + (['A'] + e), "@A=") <==> Includes(['@'] + u, "@=")
  {
    var s := ['@'] + (['A'] + e);
    var t := ['@'] + u;
    assert s[1..] == ['A'] + e && t[1..] == u;
    IncludesCons('A', e, "@A=");
    assert StartsWith(s, "@A=") <==> |e| > 0 && e[0] == '=' by {
      if |e| > 0 {
        assert s[..3] == ['@', 'A', e[0]];
      }
    }
    assert StartsWith(t, "@=") <==> |u| > 0 && u[0] == '=' by {
      if |u| > 0 {
        assert t[..2] == ['@', u[0]];
      }
    }
  }

  /** The step of EscapeAssignMark for a leading `/`, escaped as `@S`. */
  lemma MarkAfterSlash(u: string, e: string)
    requires Includes(e, "@A=") <==> Includes(u, "@=")
    ensures Includes(['@'] + (['S'] + e), "@A=") <==> Includes(['/'] + u, "@=")
  {
    var s := ['@'] + (['S'] + e);
    assert s[1..] == ['S'] + e;
    IncludesCons('S', e, "@A=");
    IncludesCons('/', u, "@=");
    assert !StartsWith(s, "@A=") by {
      if |s| >= 3 {
        assert s[..3][1] == 'S';
      }
    }
  }

  /** The step of EscapeAssignMark for any other leading character, which
      escaping keeps. */
  lemma MarkAfterOther(c: char, u: string, e: string)
    requires c != '@'
    requires Includes(e, "@A=") <==> Includes(u, "@=")
    ensures Includes([c] + e, "@A=") <==> Includes([c] + u, "@=")
  {
    IncludesCons(c, e, "@A=");
    IncludesCons(c, u, "@=");
  }

  /** Escaped text starts with `=` exactly when the text does. */
  lemma EscapeStartsAssign(u: string)
    ensures (|Escape(u)| > 0 && Escape(u)[0] == '=') <==> (|u| > 0 && u[0] == '=')
  {
    if |u| > 0 {
      assert Escape(u) == EscapeChar(u[0]) + Escape(u[1..]);
      assert Escape(u)[0] == EscapeChar(u[0])[0];
    }
  }

  /** Escaped text that held `@=` is read through the `@A=` rule: it is
      unescaped and parsed again, so it means what the text itself
      means (an object). */
  lemma ParseEscapedAssign(t: string)
    requires Includes(t, "@=")
    ensures Parse(Escape(t)) == Parse(t)
  {
    EscapedShape(t);
    UnescapeEscape(t);
  }

  /** Escaped text without `@=` is read by the scalar rule, which unescapes
      it: the text comes back as a string, whatever `//` or `@` it held. */
  lemma ParseEscapedScalar(t: string)
    requires !Includes(t, "@=")
    ensures Parse(Escape(t)) == Scalar(t)
  {
    EscapedShape(t);
    UnescapeEscape(t);
  }

  /** The rules escaped text meets: no `//`, no `@=`, and `@A=` exactly
      when the text held `@=`. */
  lemma EscapedShape(t: string)
    ensures !Includes(Escape(t), "//") && !Includes(Escape(t), "@=")
    ensures Includes(Escape(t), "@A=") <==> Includes(t, "@=")
  {
    EscapeShape(t);
    NotIncludesWithoutLead(Escape(t), "//");
    EscapeAssignMark(t);
  }

  /** The fields a writer puts on the wire: each value escaped. */
  function Escaped(fields: seq<(string, string)>): (r: seq<(string, string)>)
    ensures |r| == |fields|
    ensures forall i :: 0 <= i < |fields| ==> r[i] == (fields[i].0, Escape(fields[i].1))
  {
    if |fields| == 0 then [] else [(fields[0].0, Escape(fields[0].1))] + Escaped(fields[1..])
  }

  /** Each key with the parse of its (unescaped) value. */
  function Parsed(fields: seq<(string, string)>): (r: seq<(string, Value)>)
    ensures |r| == |fields|
    ensures forall i :: 0 <= i < |fields| ==> r[i] == (fields[i].0, Parse(fields[i].1))
  {
    if |fields| == 0 then [] else [(fields[0].0, Parse(fields[0].1))] + Parsed(fields[1..])
  }

  /** A record whose values a writer escaped reads back as the object of its
      keys, each holding the parse of its original value. */
  lemma ParseEscapedRender(fields: seq<(string, string)>)
    requires |fields| >= 1
    requires forall i :: 0 <= i < |fields| ==> NoAt(fields[i].0) && NoSlash(fields[i].0)
    ensures Parse(Render(Escaped(fields))) == Obj(Assign(map[], Parsed(fields)))
  {
    var esc := Escaped(fields);
    assert forall i :: 0 <= i < |esc| ==> WellFormed(esc[i]) by {
      forall i | 0 <= i < |esc| ensures WellFormed(esc[i]) {
        EscapeShape(fields[i].1);
      }
    }
    ParseRender(esc);
    EscapedValues(fields);
  }

  lemma EscapedValues(fields: seq<(string, string)>)
    ensures FieldValues(Escaped(fields)) == Parsed(fields)
  {
    var fv := FieldValues(Escaped(fields));
    forall i | 0 <= i < |fields| ensures fv[i] == Parsed(fields)[i] {
      UnescapeEscape(fields[i].1);
    }
  }
}
