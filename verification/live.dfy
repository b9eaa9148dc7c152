// The pure data shaping of the live-stream service (`DouyuLive`): the CDN
// order and quality list, the play-request parameters, the live/record
// flags, the recommended and followed room lists, and the HTML-entity
// decoding of the stream name. The HTTP responses, and the signature, are
// inputs: a failed request or an exception caught by the service is `None`.

module Live {
  import opened Wrappers
  import opened JsStrings

  // ---------------------------------------------------------------------
  // JSON values as the service sees them

  /** A parsed JSON response, with `undefined` for a missing member.
      Numbers are integers. */
  datatype Json =
    | Undefined
    | Null
    | Bool(b: bool)
    | Num(n: int)
    | Str(s: string)
    | List(items: seq<Json>)
    | Record(fields: map<string, Json>)

  predicate Nullish(v: Json) {
    v.Undefined? || v.Null?
  }

  /** JavaScript truthiness. */
  predicate Truthy(v: Json) {
    match v
    case Undefined => false
    case Null => false
    case Bool(b) => b
    case Num(n) => n != 0
    case Str(s) => s != ""
    case _ => true
  }

  /** `v.key` on a value that is not null or undefined. */
  function Field(v: Json, key: string): (r: Json)
    ensures v.Record? && key in v.fields ==> r == v.fields[key]
    ensures !(v.Record? && key in v.fields) ==> r == Undefined
  {
    if v.Record? && key in v.fields then v.fields[key] else Undefined
  }

  /** `v?.key` */
  function OptField(v: Json, key: string): (r: Json)
    ensures Nullish(v) ==> r == Undefined
  {
    if Nullish(v) then Undefined else Field(v, key)
  }

  /** `String(v)`; the elements of an array are joined with commas, null
      and undefined ones as empty text. */
  function JsString(v: Json): string
    decreases v, 1
  {
    match v
    case Undefined => "undefined"
    case Null => "null"
    case Bool(b) => if b then "true" else "false"
    case Num(n) => IntToString(n)
    case Str(s) => s
    case List(items) => ElementTexts(v, items)
    case Record(_) => "[object Object]"
  }

  function ElementTexts(v: Json, items: seq<Json>): string
    requires forall i :: 0 <= i < |items| ==> items[i] < v
    decreases v, 0, |items|
  {
    if |items| == 0 then ""
    else
      var last := items[|items| - 1];
      var text := if Nullish(last) then "" else JsString(last);
      if |items| == 1 then text else ElementTexts(v, items[..|items| - 1]) + "," + text
  }

  /** The text an array element contributes to the array's text: null and
      undefined contribute nothing. */
  function ElementText(x: Json): string {
    if Nullish(x) then "" else JsString(x)
  }

  /** The elements' texts, one per element, in order. */
  function ElementTextList(xs: seq<Json>): (ts: seq<string>)
    ensures |ts| == |xs|
    ensures forall i :: 0 <= i < |xs| ==> ts[i] == ElementText(xs[i])
  {
    if |xs| == 0 then []
    else
      var front := xs[..|xs| - 1];
      assert forall i :: 0 <= i < |front| ==> front[i] == xs[i];
      ElementTextList(front) + [ElementText(xs[|xs| - 1])]
  }

  /** An array's text is `join(',')` of its elements' texts. */
  lemma {:induction false} ElementTextsJoin(v: Json, items: seq<Json>)
    requires forall i :: 0 <= i < |items| ==> items[i] < v
    ensures ElementTexts(v, items) == Join(ElementTextList(items), ",")
    decreases |items|
  {
    var n := |items|;
    if n == 1 {
      assert ElementTextList(items) == [ElementText(items[0])];
    } else if n > 1 {
      var front := items[..n - 1];
      var ts := ElementTextList(front);
      var x := ElementText(items[n - 1]);
      assert ElementTexts(v, items) == ElementTexts(v, front) + "," + x;
      assert ElementTexts(v, front) == Join(ts, ",") by {
        assert forall i :: 0 <= i < n - 1 ==> front[i] == items[i];
        ElementTextsJoin(v, front);
      }
      assert ElementTextList(items) == ts + [x];
      assert Join(ts + [x], ",") == Join(ts, ",") + "," + x by {
        JoinAppend(ts, x, ",");
      }
    }
  }

  /** Whether converting `v` to text throws: a JSON object with an own
      member named `toString` has a non-callable value there (and its
      `valueOf` gives back the object itself), and an array converts each
      element in turn. */
  predicate TextThrows(v: Json)
    decreases v
  {
    match v
    case List(items) => exists i :: 0 <= i < |items| && TextThrows(items[i])
    case Record(fields) => "toString" in fields
    case _ => false
  }

  /** `v?.toString() || ''`, for a value whose conversion does not throw
      (see TextThrows). */
  function TextOrEmpty(v: Json): (t: string)
    ensures Nullish(v) ==> t == ""
    ensures v.Str? ==> t == v.s
    ensures v.Num? ==> t == IntToString(v.n)
    ensures v.Bool? ==> t == (if v.b then "true" else "false")
    ensures v.Record? ==> t == "[object Object]"
    ensures v.List? ==> t == Join(ElementTextList(v.items), ",")
  {
    if v.List? then
      ElementTextsJoin(v, v.items);
      JsString(v)
    else if Nullish(v) then "" else JsString(v)
  }

  // ---------------------------------------------------------------------
  // CDN order and qualities (`getQualities`)

  predicate IsScdn(cdn: string) {
    StartsWith(cdn, "scdn")
  }

  /** The comparator handed to `cdns.sort`: `scdn` names after the others. */
  function CompareCdn(a: string, b: string): int {
    if IsScdn(a) && !IsScdn(b) then 1
    else if !IsScdn(a) && IsScdn(b) then -1
    else 0
  }

  /** One step of a stable insertion sort: `x` moves left past every element
      the comparator puts after it, and no further. */
  function Insert(sorted: seq<string>, x: string): (r: seq<string>)
    ensures multiset(r) == multiset(sorted) + multiset{x}
    decreases |sorted|
  {
    if |sorted| == 0 || CompareCdn(sorted[|sorted| - 1], x) <= 0 then sorted + [x]
    else
      MultisetOfLast(sorted);
      Insert(sorted[..|sorted| - 1], x) + [sorted[|sorted| - 1]]
  }

  /** `cdns.sort(compare)`. `Array.prototype.sort` is stable (section
      23.1.3.30 of ECMA-262, 2019 and later), and a stable sort under a
      consistent comparator has one result; insertion sort computes it. */
  function SortCdns(cdns: seq<string>): (r: seq<string>)
    ensures multiset(r) == multiset(cdns) && |r| == |cdns|
    decreases |cdns|
  {
    if |cdns| == 0 then []
    else
      MultisetOfLast(cdns);
      Insert(SortCdns(cdns[..|cdns| - 1]), cdns[|cdns| - 1])
  }

  /** The names that are (or are not) `scdn` names, in their original order. */
  function Kind(cdns: seq<string>, scdn: bool): (r: seq<string>)
    ensures forall i :: 0 <= i < |r| ==> IsScdn(r[i]) == scdn
    ensures |r| <= |cdns|
    decreases |cdns|
  {
    if |cdns| == 0 then []
    else Kind(cdns[..|cdns| - 1], scdn) + (if IsScdn(cdns[|cdns| - 1]) == scdn then [cdns[|cdns| - 1]] else [])
  }

  lemma {:induction false} InsertAfterRun(a: seq<string>, b: seq<string>, x: string)
    requires forall i :: 0 <= i < |a| ==> !IsScdn(a[i])
    requires forall i :: 0 <= i < |b| ==> IsScdn(b[i])
    requires !IsScdn(x)
    ensures Insert(a + b, x) == a + [x] + b
    decreases |b|
  {
    if |b| == 0 {
      assert a + b == a;
    } else {
      var front := b[..|b| - 1];
      assert (a + b)[..|a + b| - 1] == a + front;
      InsertAfterRun(a, front, x);
      assert a + [x] + front + [b[|b| - 1]] == a + [x] + b;
    }
  }

  /** The sort puts the other names first, then the `scdn` names, each
      group in its original order. */
  lemma {:induction false} SortIsPartition(cdns: seq<string>)
    ensures SortCdns(cdns) == Kind(cdns, false) + Kind(cdns, true)
    decreases |cdns|
  {
    if |cdns| > 0 {
      var init := cdns[..|cdns| - 1];
      var x := cdns[|cdns| - 1];
      SortIsPartition(init);
      var a := Kind(init, false);
      var b := Kind(init, true);
      if IsScdn(x) {
        assert Kind(cdns, false) == a && Kind(cdns, true) == b + [x];
        assert a + b + [x] == a + (b + [x]);
      } else {
        assert Kind(cdns, false) == a + [x] && Kind(cdns, true) == b;
        InsertAfterRun(a, b, x);
      }
    }
  }

  lemma {:induction false} KindAppend(xs: seq<string>, ys: seq<string>, scdn: bool)
    ensures Kind(xs + ys, scdn) == Kind(xs, scdn) + Kind(ys, scdn)
    decreases |ys|
  {
    if |ys| == 0 {
      assert xs + ys == xs;
    } else {
      var front := ys[..|ys| - 1];
      assert (xs + ys)[..|xs + ys| - 1] == xs + front;
      KindAppend(xs, front, scdn);
    }
  }

  lemma {:induction false} KindOfKind(xs: seq<string>, scdn: bool, other: bool)
    ensures Kind(Kind(xs, scdn), other) == if scdn == other then Kind(xs, scdn) else []
    decreases |xs|
  {
    if |xs| > 0 {
      var front := xs[..|xs| - 1];
      var last := xs[|xs| - 1];
      KindOfKind(front, scdn, other);
      var tail := if IsScdn(last) == scdn then [last] else [];
      KindAppend(Kind(front, scdn), tail, other);
      assert Kind(tail, other) == if IsScdn(last) == scdn && scdn == other then tail else [] by {
        if |tail| == 1 {
          assert tail[..0] == [];
        }
      }
    }
  }

  lemma KindsOfLast(xs: seq<string>)
    requires |xs| > 0
    ensures var front := xs[..|xs| - 1];
      multiset(Kind(xs, false)) + multiset(Kind(xs, true))
      == multiset(Kind(front, false)) + multiset(Kind(front, true)) + multiset{xs[|xs| - 1]}
  {
  }

  lemma MultisetOfLast(xs: seq<string>)
    requires |xs| > 0
    ensures multiset(xs) == multiset(xs[..|xs| - 1]) + multiset{xs[|xs| - 1]}
  {
    assert xs == xs[..|xs| - 1] + [xs[|xs| - 1]];
  }

  lemma {:induction false} KindMultiset(xs: seq<string>)
    ensures multiset(Kind(xs, false)) + multiset(Kind(xs, true)) == multiset(xs)
    decreases |xs|
  {
    if |xs| > 0 {
      KindMultiset(xs[..|xs| - 1]);
      KindsOfLast(xs);
      MultisetOfLast(xs);
    }
  }

  /** In a run of other names followed by `scdn` names, no `scdn` name comes
      before another name. */
  lemma RunsOrdered(a: seq<string>, b: seq<string>)
    requires forall i :: 0 <= i < |a| ==> !IsScdn(a[i])
    requires forall i :: 0 <= i < |b| ==> IsScdn(b[i])
    ensures var r := a + b;
      forall i, j :: 0 <= i < j < |r| && IsScdn(r[i]) ==> IsScdn(r[j])
  {
    var r := a + b;
    forall i, j | 0 <= i < j < |r| && IsScdn(r[i])
      ensures IsScdn(r[j])
    {
      assert i >= |a|;
      assert r[j] == b[j - |a|];
    }
  }

  /** Each group of the sorted list is that group of the input. */
  lemma SortKeepsGroups(cdns: seq<string>, scdn: bool)
    ensures Kind(SortCdns(cdns), scdn) == Kind(cdns, scdn)
  {
    SortIsPartition(cdns);
    var a := Kind(cdns, false);
    var b := Kind(cdns, true);
    KindAppend(a, b, scdn);
    KindOfKind(cdns, false, scdn);
    KindOfKind(cdns, true, scdn);
    if scdn {
      assert [] + b == b;
    } else {
      assert a + [] == a;
    }
  }

  /** The sorted CDN list is a permutation of the input in which every
      other name precedes every `scdn` name, and the order within each
      group is the input's. */
  lemma SortedCdns(cdns: seq<string>)
    ensures var r := SortCdns(cdns);
      multiset(r) == multiset(cdns)
      && (forall i, j :: 0 <= i < j < |r| && IsScdn(r[i]) ==> IsScdn(r[j]))
      && Kind(r, false) == Kind(cdns, false) && Kind(r, true) == Kind(cdns, true)
  {
    SortIsPartition(cdns);
    KindMultiset(cdns);
    RunsOrdered(Kind(cdns, false), Kind(cdns, true));
    SortKeepsGroups(cdns, false);
    SortKeepsGroups(cdns, true);
  }

  datatype Rate = Rate(name: string, rate: int)
  datatype Quality = Quality(name: string, rate: int, cdns: seq<string>)

  /** The `data` of a play-info response: the CDN names and the rates, each
      possibly missing. */
  datatype PlayInfo = PlayInfo(cdnsWithName: Option<seq<string>>, multirates: Option<seq<Rate>>)

  function QualityList(rates: seq<Rate>, cdns: seq<string>): (qs: seq<Quality>)
    ensures |qs| == |rates|
    ensures forall i :: 0 <= i < |rates| ==> qs[i] == Quality(rates[i].name, rates[i].rate, cdns)
    decreases |rates|
  {
    if |rates| == 0 then []
    else QualityList(rates[..|rates| - 1], cdns) + [Quality(rates[|rates| - 1].name, rates[|rates| - 1].rate, cdns)]
  }

  /** `getQualities`: one quality per rate, in order, all sharing the sorted
      CDN list; nothing when the request failed or no rates came back. */
  function Qualities(info: Option<PlayInfo>): (qs: seq<Quality>)
    ensures info.None? || info.value.multirates.None? ==> qs == []
    ensures info.Some? && info.value.multirates.Some? ==>
      var rates := info.value.multirates.value;
      |qs| == |rates|
      && forall i :: 0 <= i < |rates| ==>
        qs[i].name == rates[i].name && qs[i].rate == rates[i].rate
        && qs[i].cdns == SortCdns(info.value.cdnsWithName.GetOr([]))
  {
    match info
    case None => []
    case Some(p) =>
      var cdns := if p.cdnsWithName.Some? then SortCdns(p.cdnsWithName.value) else [];
      if p.multirates.Some? then QualityList(p.multirates.value, cdns) else []
  }

  // ---------------------------------------------------------------------
  // Play-request parameters (`_buildParams`)

  const CDN_KEY: string := "&cdn="
  const RATE_KEY: string := "&rate="
  const PARAMS_TAIL: string := "&ver=Douyu_223061205&iar=1&ive=1&hevc=0&fa=0"

  /** `_buildParams(signData, rate, cdn)` */
  function BuildParams(sign: string, rate: int, cdn: string): (p: string)
    ensures |p| == |sign| + |CDN_KEY| + |cdn| + |RATE_KEY| + |IntToString(rate)| + |PARAMS_TAIL|
  {
    sign + CDN_KEY + cdn + RATE_KEY + IntToString(rate) + PARAMS_TAIL
  }

  lemma TailStartsWithAmp()
    ensures |PARAMS_TAIL| > 0 && PARAMS_TAIL[0] == '&'
  {
  }

  /** The pieces of a concatenation sit where their lengths say. */
  lemma {:induction false} Pieces(a: string, b: string, c: string, d: string, e: string, f: string)
    ensures var p := a + b + c + d + e + f;
      var at := |a| + |b| + |c| + |d|;
      a <= p && p[|a|..|a| + |b|] == b && p[|a| + |b|..|a| + |b| + |c|] == c
      && p[at..] == e + f && p[|p| - |f|..] == f
  {
  }

  /** The query starts with the signature, carries the CDN after `&cdn=`,
      and the number after `&rate=` reads back as the rate. */
  lemma ParamsReadBack(sign: string, rate: int, cdn: string)
    ensures var p := BuildParams(sign, rate, cdn);
      var at := |sign| + |CDN_KEY| + |cdn| + |RATE_KEY|;
      sign <= p
      && p[|sign|..|sign| + |CDN_KEY|] == CDN_KEY && p[|sign| + |CDN_KEY|..|sign| + |CDN_KEY| + |cdn|] == cdn
      && ParseInt(p[at..]) == Some(rate)
      && p[|p| - |PARAMS_TAIL|..] == PARAMS_TAIL
  {
    Pieces(sign, CDN_KEY, cdn, RATE_KEY, IntToString(rate), PARAMS_TAIL);
    TailStartsWithAmp();
    ParseIntOfString(rate, PARAMS_TAIL);
  }

  // ---------------------------------------------------------------------
  // Live and record flags (`getRoomInfo`)

  datatype RoomFlags = RoomFlags(isLive: bool, isRecord: bool)

  /** A room is live when it shows and is not replaying, and a recording
      when it replays; never both. */
  function Flags(showStatus: Json, videoLoop: Json): (f: RoomFlags)
    ensures !(f.isLive && f.isRecord)
    ensures f.isRecord <==> videoLoop == Num(1)
    ensures f.isLive <==> showStatus == Num(1) && !f.isRecord
  {
    RoomFlags(showStatus == Num(1) && videoLoop != Num(1), videoLoop == Num(1))
  }

  // ---------------------------------------------------------------------
  // Room lists (`getRecommendRooms`, `getFollowRooms`)

  /** `LiveRoomItem`; `online` is None where the number is NaN. */
  datatype RoomItem = RoomItem(cover: string, online: Option<int>, roomId: string, title: string, userName: string)

  datatype CategoryResult = CategoryResult(hasMore: bool, items: seq<RoomItem>)

  const NO_ROOMS: CategoryResult := CategoryResult(false, [])

  /** The rows of `data.rl`, or None where iterating them throws. A string
      iterates its characters, none of which has the members looked at, so
      it yields no room. */
  function Rows(rl: Json): (r: Option<seq<Json>>)
    ensures r.None? <==> Truthy(rl) && !rl.List? && !rl.Str?
    ensures rl.List? ==> r == Some(rl.items)
    ensures !rl.List? && r.Some? ==> r.value == []
  {
    if !Truthy(rl) then Some([])
    else match rl
      case List(xs) => Some(xs)
      case Str(_) => Some([])
      case _ => None
  }

  /** Whether a row makes the loop throw: reading a member of null or
      undefined does, and so does converting a member of a kept row whose
      conversion throws. */
  predicate Breaks(row: Json, keep: Json -> bool, throws: Json -> bool) {
    Nullish(row) || (keep(row) && throws(row))
  }

  /** The rows `keep` accepts, shaped, in order; None when some row
      breaks the loop. */
  function RoomList(rows: seq<Json>, keep: Json -> bool, throws: Json -> bool, shape: Json -> RoomItem)
    : (r: Option<seq<RoomItem>>)
    ensures r.None? <==> exists i :: 0 <= i < |rows| && Breaks(rows[i], keep, throws)
    ensures r.Some? ==> |r.value| <= |rows|
    decreases |rows|
  {
    if |rows| == 0 then Some([])
    else
      var last := rows[|rows| - 1];
      var front := RoomList(rows[..|rows| - 1], keep, throws, shape);
      assert forall i :: 0 <= i < |rows| - 1 ==> rows[..|rows| - 1][i] == rows[i];
      if Breaks(last, keep, throws) || front.None? then None
      else if keep(last) then Some(front.value + [shape(last)])
      else front
  }

  /** The list of a run of rows is the lists of its parts, one after the
      other. */
  lemma {:induction false} RoomListAppend(xs: seq<Json>, ys: seq<Json>, keep: Json -> bool, throws: Json -> bool,
                                          shape: Json -> RoomItem)
    ensures var whole := RoomList(xs + ys, keep, throws, shape);
      var a := RoomList(xs, keep, throws, shape);
      var b := RoomList(ys, keep, throws, shape);
      whole == if a.Some? && b.Some? then Some(a.value + b.value) else None
    decreases |ys|
  {
    if |ys| == 0 {
      assert xs + ys == xs;
      var a := RoomList(xs, keep, throws, shape);
      if a.Some? {
        assert a.value + [] == a.value;
      }
    } else {
      var front := ys[..|ys| - 1];
      var last := ys[|ys| - 1];
      assert (xs + ys)[..|xs + ys| - 1] == xs + front;
      assert (xs + ys)[|xs + ys| - 1] == last;
      RoomListAppend(xs, front, keep, throws, shape);
      var a := RoomList(xs, keep, throws, shape);
      var f := RoomList(front, keep, throws, shape);
      if a.Some? && f.Some? && !Breaks(last, keep, throws) && keep(last) {
        assert a.value + f.value + [shape(last)] == a.value + (f.value + [shape(last)]);
      }
    }
  }

  /** A single row: kept and shaped exactly when `keep` accepts it. */
  lemma RoomListOne(x: Json, keep: Json -> bool, throws: Json -> bool, shape: Json -> RoomItem)
    ensures RoomList([x], keep, throws, shape) ==
      if Breaks(x, keep, throws) then None else if keep(x) then Some([shape(x)]) else Some([])
  {
    assert [x][..0] == [];
    assert RoomList([], keep, throws, shape) == Some([]);
    assert [] + [shape(x)] == [shape(x)];
  }

  /** The positions of the rows `keep` accepts, in increasing order. */
  function KeptIndices(rows: seq<Json>, keep: Json -> bool): (idx: seq<nat>)
    ensures forall k :: 0 <= k < |idx| ==> idx[k] < |rows| && keep(rows[idx[k]])
    ensures forall k, l :: 0 <= k < l < |idx| ==> idx[k] < idx[l]
    ensures forall i :: 0 <= i < |rows| && keep(rows[i]) ==> i in idx
    decreases |rows|
  {
    if |rows| == 0 then []
    else
      var front := rows[..|rows| - 1];
      assert forall i :: 0 <= i < |rows| - 1 ==> front[i] == rows[i];
      var f := KeptIndices(front, keep);
      if keep(rows[|rows| - 1]) then f + [|rows| - 1] else f
  }

  /** `items` are the rows at positions `idx`, each shaped. */
  predicate Picked(rows: seq<Json>, idx: seq<nat>, items: seq<RoomItem>, shape: Json -> RoomItem) {
    |items| == |idx| && forall k :: 0 <= k < |idx| ==> idx[k] < |rows| && items[k] == shape(rows[idx[k]])
  }

  /** When no row breaks the loop, the list holds exactly the shaped rows
      `keep` accepts, in their order. */
  lemma {:induction false} RoomListContent(rows: seq<Json>, keep: Json -> bool, throws: Json -> bool, shape: Json -> RoomItem)
    requires forall i :: 0 <= i < |rows| ==> !Breaks(rows[i], keep, throws)
    ensures var r := RoomList(rows, keep, throws, shape);
      r.Some? && Picked(rows, KeptIndices(rows, keep), r.value, shape)
    decreases |rows|
  {
    if |rows| > 0 {
      var n := |rows| - 1;
      var front := rows[..n];
      assert forall i :: 0 <= i < n ==> !Breaks(front[i], keep, throws);
      RoomListContent(front, keep, throws, shape);
      var f := KeptIndices(front, keep);
      var fs := RoomList(front, keep, throws, shape).value;
      PickedExtend(rows, f, fs, shape);
      assert !Breaks(rows[n], keep, throws);
      if keep(rows[n]) {
        assert KeptIndices(rows, keep) == f + [n];
        assert RoomList(rows, keep, throws, shape) == Some(fs + [shape(rows[n])]);
      } else {
        assert KeptIndices(rows, keep) == f;
        assert RoomList(rows, keep, throws, shape) == Some(fs);
      }
    } else {
      assert KeptIndices(rows, keep) == [];
      assert RoomList(rows, keep, throws, shape) == Some([]);
    }
  }

  /** Positions picked in all rows but the last stay picked in the whole,
      and the last row can be picked after them. */
  lemma PickedExtend(rows: seq<Json>, f: seq<nat>, fs: seq<RoomItem>, shape: Json -> RoomItem)
    requires |rows| > 0 && Picked(rows[..|rows| - 1], f, fs, shape)
    ensures Picked(rows, f, fs, shape)
    ensures Picked(rows, f + [|rows| - 1], fs + [shape(rows[|rows| - 1])], shape)
  {
    var n := |rows| - 1;
    assert forall k :: 0 <= k < |f| ==> rows[..n][f[k]] == rows[f[k]];
  }

  /** `item.ol || 0`: a number, zero when missing; NaN-like when it is some
      other truthy value. */
  function Count(v: Json): Option<int> {
    if !Truthy(v) then Some(0) else if v.Num? then Some(v.n) else None
  }

  /** `parseInt(v || '0', 10)` */
  function ParsedCount(v: Json): Option<int> {
    ParseInt(if Truthy(v) then JsString(v) else "0")
  }

  /** A missing count reads as zero, and a number as itself. */
  lemma ParsedCountOf(v: Json)
    ensures !Truthy(v) ==> ParsedCount(v) == Some(0)
    ensures v.Num? ==> ParsedCount(v) == Some(v.n)
  {
    if !Truthy(v) {
      ParseIntOfString(0, "");
      assert IntToString(0) + "" == "0";
    } else if v.Num? {
      ParseIntOfString(v.n, "");
      assert IntToString(v.n) + "" == IntToString(v.n);
    }
  }

  /** A recommended row is kept when its `type` is the number 1. */
  predicate IsLiveRow(item: Json) {
    Field(item, "type") == Num(1)
  }

  /** Whether one of the `toString` conversions of a kept recommended row
      throws. */
  predicate RecommendThrows(item: Json) {
    TextThrows(Field(item, "rs16")) || TextThrows(Field(item, "rid"))
    || TextThrows(Field(item, "rn")) || TextThrows(Field(item, "nn"))
  }

  function RecommendRow(item: Json): RoomItem {
    RoomItem(TextOrEmpty(Field(item, "rs16")), Count(Field(item, "ol")), TextOrEmpty(Field(item, "rid")),
      TextOrEmpty(Field(item, "rn")), TextOrEmpty(Field(item, "nn")))
  }

  /** A followed row is kept when its `show_status` is the number 1. */
  predicate IsShowingRow(item: Json) {
    Field(item, "show_status") == Num(1)
  }

  /** Whether one of the conversions of a kept followed row throws; `hot`
      is converted by `parseInt`. */
  predicate FollowThrows(item: Json) {
    TextThrows(Field(item, "room_pic")) || TextThrows(Field(item, "hot")) || TextThrows(Field(item, "room_id"))
    || TextThrows(Field(item, "room_name")) || TextThrows(Field(item, "nickname"))
  }

  function FollowRow(item: Json): RoomItem {
    RoomItem(TextOrEmpty(Field(item, "room_pic")), ParsedCount(Field(item, "hot")), TextOrEmpty(Field(item, "room_id")),
      TextOrEmpty(Field(item, "room_name")), TextOrEmpty(Field(item, "nickname")))
  }

  /** `page < (pgcnt || 1)`: the page count converted to a number (an
      array or object through its text); None where that conversion
      throws. */
  function HasMore(page: int, pgcnt: Json): (more: Option<bool>)
    ensures more.None? <==> TextThrows(pgcnt)
    ensures !Truthy(pgcnt) ==> more == Some(page < 1)
    ensures pgcnt.Num? && pgcnt.n != 0 ==> more == Some(page < pgcnt.n)
    ensures pgcnt == Bool(true) ==> more == Some(page < 1)
  {
    if !Truthy(pgcnt) then Some(page < 1)
    else if pgcnt.Num? then Some(page < pgcnt.n)
    else if pgcnt.Bool? then Some(page < 1)
    else if TextThrows(pgcnt) then None
    else Some(Below(page, StringToNumber(JsString(pgcnt))))
  }

  /** `page < x` for a number that may be NaN (None), which compares false. */
  function Below(page: int, x: Option<int>): bool {
    match x
    case Some(n) => page < n
    case None => false
  }

  /** A page count written as decimal text compares as its number. */
  lemma HasMoreOfText(page: int, n: int)
    ensures HasMore(page, Str(IntToString(n))) == Some(page < n)
  {
    assert StringToNumber(IntToString(n)) == Some(n) by {
      StringToNumberOfString(n);
    }
    assert IntToString(n) != "" by {
      assert |NatToString(if n < 0 then -n else n)| > 0;
    }
    HasMoreOfString(page, IntToString(n), n);
  }

  lemma HasMoreOfString(page: int, s: string, x: int)
    requires s != "" && StringToNumber(s) == Some(x)
    ensures HasMore(page, Str(s)) == Some(page < x)
  {
  }

  /** A page count that is an array of one number compares as that
      number, and an empty array as 0: the array goes through its text. */
  lemma HasMoreOfList(page: int, n: int)
    ensures HasMore(page, List([Num(n)])) == Some(page < n)
    ensures HasMore(page, List([])) == Some(page < 0)
  {
    var one := List([Num(n)]);
    assert !TextThrows(one) by {
      assert forall i :: 0 <= i < 1 ==> !TextThrows(one.items[i]);
    }
    assert JsString(one) == IntToString(n) by {
      assert ElementTexts(one, one.items) == IntToString(n);
    }
    assert StringToNumber(IntToString(n)) == Some(n) by {
      StringToNumberOfString(n);
    }
    HasMoreOfTextValue(page, one, IntToString(n), n);
    assert JsString(List([])) == "";
    assert StringToNumber("") == Some(0);
    HasMoreOfTextValue(page, List([]), "", 0);
  }

  lemma HasMoreOfTextValue(page: int, v: Json, s: string, x: int)
    requires v.List? && !TextThrows(v) && JsString(v) == s && StringToNumber(s) == Some(x)
    ensures HasMore(page, v) == Some(page < x)
  {
  }

  /** `getRecommendRooms(page)` over the response, None when the request
      failed. */
  function RecommendRooms(page: int, response: Option<Json>): (r: CategoryResult)
    ensures response.None? ==> r == NO_ROOMS
    ensures response.Some? && Nullish(response.value) ==> r == NO_ROOMS
  {
    match response
    case None => NO_ROOMS
    case Some(result) =>
      if Nullish(result) then NO_ROOMS
      else
        var data := Field(result, "data");
        match Rows(OptField(data, "rl"))
        case None => NO_ROOMS
        case Some(rows) =>
          match RoomList(rows, IsLiveRow, RecommendThrows, RecommendRow)
          case None => NO_ROOMS
          case Some(items) =>
            match HasMore(page, OptField(data, "pgcnt"))
            case None => NO_ROOMS
            case Some(more) => CategoryResult(more, items)
  }

  /** `getFollowRooms()` over the response, None when the request failed. */
  function FollowRooms(response: Option<Json>): (r: seq<RoomItem>)
    ensures response.None? ==> r == []
  {
    match response
    case None => []
    case Some(result) =>
      if Nullish(result) then []
      else
        match Rows(OptField(Field(result, "data"), "rl"))
        case None => []
        case Some(rows) =>
          match RoomList(rows, IsShowingRow, FollowThrows, FollowRow)
          case None => []
          case Some(items) => items
  }

  /** A response whose `data.rl` is iterable (an array, a string, or
      missing or falsy, which give no rows): when no row is null or
      undefined and no conversion of a kept row throws, the page holds the
      rows whose `type` is 1, in order, shaped with their defaults, and
      whether more pages follow; otherwise it is empty. */
  lemma RecommendContent(page: int, result: Json, rows: seq<Json>)
    requires !Nullish(result) && Rows(OptField(Field(result, "data"), "rl")) == Some(rows)
    ensures (exists i :: 0 <= i < |rows| && Breaks(rows[i], IsLiveRow, RecommendThrows))
      ==> RecommendRooms(page, Some(result)) == NO_ROOMS
    ensures (forall i :: 0 <= i < |rows| ==> !Breaks(rows[i], IsLiveRow, RecommendThrows)) ==>
      var idx := KeptIndices(rows, IsLiveRow);
      var more := HasMore(page, OptField(Field(result, "data"), "pgcnt"));
      var r := RecommendRooms(page, Some(result));
      (more.None? ==> r == NO_ROOMS) &&
      (more.Some? ==> r.hasMore == more.value && Picked(rows, idx, r.items, RecommendRow))
  {
    if forall i :: 0 <= i < |rows| ==> !Breaks(rows[i], IsLiveRow, RecommendThrows) {
      RoomListContent(rows, IsLiveRow, RecommendThrows, RecommendRow);
    }
  }

  /** A response whose `data.rl` is iterable (an array, a string, or
      missing or falsy, which give no rows): when no row is null or
      undefined and no conversion of a kept row throws, exactly the rows
      whose `show_status` is 1, in order; otherwise no room. */
  lemma FollowContent(result: Json, rows: seq<Json>)
    requires !Nullish(result) && Rows(OptField(Field(result, "data"), "rl")) == Some(rows)
    ensures (exists i :: 0 <= i < |rows| && Breaks(rows[i], IsShowingRow, FollowThrows))
      ==> FollowRooms(Some(result)) == []
    ensures (forall i :: 0 <= i < |rows| ==> !Breaks(rows[i], IsShowingRow, FollowThrows)) ==>
      var idx := KeptIndices(rows, IsShowingRow);
      Picked(rows, idx, FollowRooms(Some(result)), FollowRow)
  {
    if forall i :: 0 <= i < |rows| ==> !Breaks(rows[i], IsShowingRow, FollowThrows) {
      RoomListContent(rows, IsShowingRow, FollowThrows, FollowRow);
    }
  }

  /** A `data.rl` that is truthy but not iterable makes the `for…of`
      throw, and the `catch` returns an empty page or an empty follow
      list; missing or falsy `rl` gives no rows but keeps the page flag. */
  lemma RowsThrowEmptiesPage(page: int, result: Json)
    requires !Nullish(result)
    ensures var rl := OptField(Field(result, "data"), "rl");
      Rows(rl).None? ==> RecommendRooms(page, Some(result)) == NO_ROOMS && FollowRooms(Some(result)) == []
    ensures var data := Field(result, "data");
      !Truthy(OptField(data, "rl")) && !TextThrows(OptField(data, "pgcnt")) ==>
        RecommendRooms(page, Some(result)) == CategoryResult(HasMore(page, OptField(data, "pgcnt")).value, [])
        && FollowRooms(Some(result)) == []
  {
  }

  /** A live row whose `nn` is an object with its own `toString` member
      makes `item.nn?.toString()` throw, and the `catch` returns an empty
      page. */
  lemma ThrowingNameEmptiesPage()
    ensures var row := Record(map["type" := Num(1), "nn" := Record(map["toString" := Num(0)])]);
      RecommendRooms(1, Some(Record(map["data" := Record(map["rl" := List([row])])]))) == NO_ROOMS
  {
    var row := Record(map["type" := Num(1), "nn" := Record(map["toString" := Num(0)])]);
    var result := Record(map["data" := Record(map["rl" := List([row])])]);
    assert Rows(OptField(Field(result, "data"), "rl")) == Some([row]);
    assert Breaks([row][0], IsLiveRow, RecommendThrows);
    RecommendContent(1, result, [row]);
  }

  /** The same member in a followed row's `hot` makes `parseInt`'s string
      conversion throw, and the follow list is empty. */
  lemma ThrowingCountEmptiesFollow()
    ensures var row := Record(map["show_status" := Num(1), "hot" := Record(map["toString" := Num(0)])]);
      FollowRooms(Some(Record(map["data" := Record(map["rl" := List([row])])]))) == []
  {
    var row := Record(map["show_status" := Num(1), "hot" := Record(map["toString" := Num(0)])]);
    var result := Record(map["data" := Record(map["rl" := List([row])])]);
    assert Rows(OptField(Field(result, "data"), "rl")) == Some([row]);
    assert Breaks([row][0], IsShowingRow, FollowThrows);
    FollowContent(result, [row]);
  }

  // ---------------------------------------------------------------------
  // HTML entities (`_htmlUnescape`)

  predicate IsEntityChar(c: char) {
    ('a' <= c <= 'z') || ('A' <= c <= 'Z') || ('0' <= c <= '9') || c == '#'
  }

  /** The length of the run of entity characters `s` starts with. */
  function EntityRun(s: string): (n: nat)
    ensures n <= |s|
    ensures forall i :: 0 <= i < n ==> IsEntityChar(s[i])
    ensures n < |s| ==> !IsEntityChar(s[n])
  {
    if |s| > 0 && IsEntityChar(s[0]) then 1 + EntityRun(s[1..]) else 0
  }

  /** The length of a match of `/&[a-zA-Z0-9#]+;/` at the start of `s`, if
      any. The class excludes `;`, so the greedy run decides it. */
  function MatchLength(s: string): (n: Option<nat>)
    ensures n.Some? ==> 3 <= n.value <= |s| && s[0] == '&' && s[n.value - 1] == ';'
  {
    if |s| == 0 || s[0] != '&' then None
    else
      var k := EntityRun(s[1..]);
      if k > 0 && 1 + k < |s| && s[1 + k] == ';' then Some(k + 2) else None
  }

  /** `str.replace(/&[a-zA-Z0-9#]+;/g, e => table[e] || e)`: matches are
      found left to right, each replaced, the scan going on after it. */
  function ReplaceEntities(s: string, table: map<string, string>): string
    decreases |s|
  {
    if |s| == 0 then ""
    else match MatchLength(s)
      case Some(n) =>
        var e := s[..n];
        (if e in table && table[e] != "" then table[e] else e) + ReplaceEntities(s[n..], table)
      case None => [s[0]] + ReplaceEntities(s[1..], table)
  }

  /** The entity table as the service writes it: its keys are the single
      characters themselves. */
  const WRITTEN_ENTITIES: map<string, string> := map["&" := "&", "<" := "<", ">" := ">", "\"" := "\""]

  /** `_htmlUnescape` as written. It is the identity: every match is at
      least three characters long and every key of the table one. */
  function HtmlUnescape(s: string): (r: string)
    ensures r == s
  {
    ReplaceShortKeys(s, WRITTEN_ENTITIES);
    ReplaceEntities(s, WRITTEN_ENTITIES)
  }

  /** A table none of whose keys is long enough to be a match changes
      nothing. */
  lemma {:induction false} ReplaceShortKeys(s: string, table: map<string, string>)
    requires forall k :: k in table ==> |k| < 3
    ensures ReplaceEntities(s, table) == s
    decreases |s|
  {
    if |s| > 0 {
      match MatchLength(s)
      case Some(n) =>
        ReplaceShortKeys(s[n..], table);
        assert s[..n] + s[n..] == s;
      case None =>
        ReplaceShortKeys(s[1..], table);
        assert [s[0]] + s[1..] == s;
    }
  }

  /** So an encoded ampersand in a stream name stays encoded. */
  lemma HtmlUnescapeKeepsAmp()
    ensures HtmlUnescape("a&amp;b") == "a&amp;b"
  {
  }

  /** The table the decoding evidently means: the four entities HTML
      escaping produces. */
  const ENTITIES: map<string, string> := map["&amp;" := "&", "&lt;" := "<", "&gt;" := ">", "&quot;" := "\""]

  /** The corrected decoding. */
  function HtmlDecode(s: string): string {
    ReplaceEntities(s, ENTITIES)
  }

  function EscapeChar(c: char): string {
    if c == '&' then "&amp;" else if c == '<' then "&lt;" else if c == '>' then "&gt;"
    else if c == '"' then "&quot;" else [c]
  }

  /** HTML escaping of the four special characters. */
  function HtmlEscape(s: string): string
    decreases |s|
  {
    if |s| == 0 then "" else EscapeChar(s[0]) + HtmlEscape(s[1..])
  }

  /** An entity made of a name of entity characters matches whole. */
  lemma MatchOfEntity(name: string, rest: string)
    requires |name| > 0 && forall i :: 0 <= i < |name| ==> IsEntityChar(name[i])
    ensures MatchLength("&" + name + ";" + rest) == Some(|name| + 2)
  {
    var s := "&" + name + ";" + rest;
    assert s[1..] == name + ";" + rest;
    RunOfName(name, ";" + rest);
    assert name + ";" + rest == name + (";" + rest);
  }

  lemma {:induction false} RunOfName(name: string, rest: string)
    requires forall i :: 0 <= i < |name| ==> IsEntityChar(name[i])
    requires |rest| == 0 || !IsEntityChar(rest[0])
    ensures EntityRun(name + rest) == |name|
    decreases |name|
  {
    if |name| > 0 {
      assert (name + rest)[1..] == name[1..] + rest;
      RunOfName(name[1..], rest);
    } else {
      assert name + rest == rest;
    }
  }

  /** Decoding one escaped character, then the rest. */
  lemma DecodeEscapedChar(c: char, rest: string)
    ensures HtmlDecode(EscapeChar(c) + rest) == [c] + HtmlDecode(rest)
  {
    var e := EscapeChar(c);
    if c == '&' || c == '<' || c == '>' || c == '"' {
      var name := e[1..|e| - 1];
      assert e == "&" + name + ";";
      MatchOfEntity(name, rest);
      var s := e + rest;
      assert s[..|e|] == e && s[|e|..] == rest;
      assert e in ENTITIES && ENTITIES[e] == [c];
    } else {
      var s := e + rest;
      assert s[0] == c && s[1..] == rest;
    }
  }

  /** Decoding undoes HTML escaping. */
  lemma {:induction false} HtmlDecodeEscape(s: string)
    ensures HtmlDecode(HtmlEscape(s)) == s
    decreases |s|
  {
    if |s| > 0 {
      DecodeEscapedChar(s[0], HtmlEscape(s[1..]));
      HtmlDecodeEscape(s[1..]);
      assert [s[0]] + s[1..] == s;
    }
  }

  /** The corrected decoding does decode an ampersand. */
  lemma HtmlDecodeAmp()
    ensures HtmlDecode("a&amp;b") == "a&b"
  {
    assert HtmlEscape("a&b") == "a&amp;b" by {
      assert "a&b"[1..] == "&b" && "&b"[1..] == "b" && "b"[1..] == "";
    }
    HtmlDecodeEscape("a&b");
  }
}
