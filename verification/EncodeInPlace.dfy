/**
 What the C++ encoder writes when it starts from a vector that already has a size, with an offset that is an int. Room,
 what the vector holds beyond the offset, matters for one thing only: a text of 65536 bytes is announced, and stepped
 over, as empty, but copied whole without room having been made for it.
 */
module EncodeInPlace {
  import opened Bytes
  import opened Codec

  /** The largest int. */
  const MAX_OFFSET := 0x7FFF_FFFF

  /** At some offset: what the vector holds beyond it, and how much further it can go. */
  datatype Space = Space(room: nat, reach: nat)

  /** Encoded bytes, and the space beyond them. */
  datatype Placed = Placed(bytes: seq<byte>, space: Space)

  /** Room after k more bytes: the vector grows by k if it does not hold them, and is used up otherwise. */
  function RoomAfter(room: nat, k: nat): (r: nat)
    ensures r <= room
  {
    if room < k then room else room - k
  }

  /** k more bytes, or None where the offset overflows. */
  function Advance(s: Space, k: nat): (r: Option<Space>)
    ensures r.Some? <==> k <= s.reach
  {
    if s.reach < k then None else Some(Space(RoomAfter(s.room, k), s.reach - k))
  }

  function WordsRoom(room: nat, n: nat): (r: nat)
    ensures r <= room
    decreases n
  {
    if n == 0 then room else WordsRoom(RoomAfter(room, 8), n - 1)
  }

  function PlaceText(s: Space, t: Option<seq<byte>>): Result<Placed> {
    match t
    case None => Err(BadText)
    case Some(b) =>
      match Advance(s, 2)
      case None => Err(Overflow)
      case Some(here) =>
        if |b| > MAX_COUNT then Err(TooLong) else PlacedAfter(ToLE(|b|, 2), PlaceChars(here, b))
  }

  /** The bytes of a text, 65536 of which are stepped over as none. */
  function PlaceChars(s: Space, b: seq<byte>): Result<Placed> {
    if |b| < MAX_COUNT then
      match Advance(s, |b|)
      case None => Err(Overflow)
      case Some(after) => Ok(Placed(b, after))
    else if s.room < |b| then Err(Overrun)
    else Ok(Placed([], s))
  }

  function PlaceTexts(s: Space, ts: seq<Option<seq<byte>>>): Result<Placed>
    decreases |ts|
  {
    if ts == [] then Ok(Placed([], s)) else
      match PlaceText(s, ts[0])
      case Err(f) => Err(f)
      case Ok(first) => PlacedAfter(first.bytes, PlaceTexts(first.space, ts[1..]))
  }

  /** `done` followed by what is still to come. */
  function PlacedAfter(done: seq<byte>, r: Result<Placed>): Result<Placed> {
    match r case Ok(p) => Ok(Placed(done + p.bytes, p.space)) case Err(f) => Err(f)
  }

  /** The words of an array, eight bytes each. */
  function PlaceWords(s: Space, ws: seq<Word8>): Result<Placed> {
    if s.reach < 8 * |ws| then Err(Overflow)
    else Ok(Placed(Concat(ws), Space(WordsRoom(s.room, |ws|), s.reach - 8 * |ws|)))
  }

  function PlaceBody(s: Space, c: Content): Result<Placed> {
    match c
    case Scalar(w) => (match Advance(s, 8) case None => Err(Overflow) case Some(after) => Ok(Placed(w, after)))
    case Vector(ws) =>
      (match Advance(s, 2)
       case None => Err(Overflow)
       case Some(here) =>
         if |ws| > MAX_COUNT then Err(TooLong) else PlacedAfter(ToLE(|ws|, 2), PlaceWords(here, Kept(Cpp, ws))))
    case One(t) => PlaceText(s, t)
    case Many(ts) =>
      (match Advance(s, 2)
       case None => Err(Overflow)
       case Some(here) =>
         if |ts| > MAX_COUNT then Err(TooLong) else PlacedAfter(ToLE(|ts|, 2), PlaceTexts(here, Kept(Cpp, ts))))
  }

  function PlaceItem(conv: Converter, s: Space, t: char, v: Value): Result<Placed> {
    if t == 'v' then
      match Advance(s, 1)
      case None => Err(Overflow)
      case Some(here) => PlacedAfter([Tag(Narrow(Letter(v)))], PlaceBody(here, ContentOf(conv, v)))
    else if !IsLetter(t) then Err(BadType)
    else if Letter(v) != t then Err(Mismatch)
    else PlaceBody(s, ContentOf(conv, v))
  }

  function EncodeIn(conv: Converter, s: Space, sig: string, vals: seq<Value>): Result<seq<byte>>
    requires |sig| == |vals|
    decreases |sig|
  {
    if sig == [] then Ok([]) else
      match PlaceItem(conv, s, sig[0], vals[0])
      case Err(f) => Err(f)
      case Ok(p) => Prepend(p.bytes, EncodeIn(conv, p.space, sig[1..], vals[1..]))
  }

  /** Encoding into a vector of n bytes. */
  function EncodeFrom(conv: Converter, n: nat, sig: string, vals: seq<Value>): Result<seq<byte>>
    requires |sig| == |vals|
  {
    EncodeIn(conv, Space(n, MAX_OFFSET), sig, vals)
  }

  // ---- where the offset stays an int ----

  /** A placed result against the encoding that starts from an empty vector and has any offset. */
  predicate SameBut(s: Space, placed: Result<Placed>, plain: Result<seq<byte>>) {
    && (placed.Ok? ==> placed.value.space.room <= s.room && |placed.value.bytes| + placed.value.space.reach == s.reach)
    && match plain
       case Ok(b) =>
         if |b| <= s.reach then placed.Ok? && placed.value.bytes == b else placed == Err(Overflow)
       case Err(f) =>
         placed == Err(Overflow) || if f == Overrun then s.room < MAX_COUNT ==> placed == Err(Overrun) else placed == Err(f)
  }

  lemma {:induction false} TextsCompared(s: Space, ts: seq<Option<seq<byte>>>)
    ensures SameBut(s, PlaceTexts(s, ts), TextBlocks(Cpp, ts))
    decreases |ts|
  {
    if ts != [] && PlaceText(s, ts[0]).Ok? {
      TextsCompared(PlaceText(s, ts[0]).value.space, ts[1..]);
    }
  }

  lemma BodyCompared(s: Space, c: Content)
    ensures SameBut(s, PlaceBody(s, c), Body(Cpp, c))
  {
    match c
    case Vector(ws) => WordsLength(Kept(Cpp, ws));
    case Many(ts) =>
      if s.reach >= 2 {
        TextsCompared(Advance(s, 2).value, Kept(Cpp, ts));
      }
    case _ =>
  }

  lemma ItemCompared(conv: Converter, s: Space, t: char, v: Value)
    ensures SameBut(s, PlaceItem(conv, s, t, v), EncodeItem(Cpp, conv, t, v))
  {
    if t == 'v' {
      if s.reach >= 1 {
        BodyCompared(Advance(s, 1).value, ContentOf(conv, v));
      }
    } else {
      BodyCompared(s, ContentOf(conv, v));
    }
  }

  /**
   From less than 65536 bytes of room the encoder does what it does from an empty vector, and from any room it does so for
   every list on which that does not overrun, as long as the offset stays an int: just if the encoding is no longer
   than the reach.
   */
  lemma {:induction false} RoomHardlyMatters(conv: Converter, s: Space, sig: string, vals: seq<Value>)
    requires |sig| == |vals|
    requires s.room < MAX_COUNT || Encode(Cpp, conv, sig, vals) != Err(Overrun)
    ensures match Encode(Cpp, conv, sig, vals)
      case Ok(b) => EncodeIn(conv, s, sig, vals) == if |b| <= s.reach then Ok(b) else Err(Overflow)
      case Err(f) => EncodeIn(conv, s, sig, vals) == Err(f) || EncodeIn(conv, s, sig, vals) == Err(Overflow)
    decreases |sig|
  {
    if sig != [] {
      ItemCompared(conv, s, sig[0], vals[0]);
      var p := PlaceItem(conv, s, sig[0], vals[0]);
      if p.Ok? {
        RoomHardlyMatters(conv, p.value.space, sig[1..], vals[1..]);
      }
    }
  }

  // ---- where the room makes no difference ----

  /** The same from little room and from any, unless the little room is overrun. */
  predicate SameFrom(little: Result<Placed>, any: Result<Placed>) {
    match little
    case Ok(p) => any.Ok? && any.value.bytes == p.bytes && any.value.space.reach == p.space.reach && p.space.room < MAX_COUNT
    case Err(f) => f == Overrun || any == Err(f)
  }

  lemma {:induction false} TextsFrom(little: nat, any: nat, reach: nat, ts: seq<Option<seq<byte>>>)
    requires little < MAX_COUNT
    ensures SameFrom(PlaceTexts(Space(little, reach), ts), PlaceTexts(Space(any, reach), ts))
    decreases |ts|
  {
    if ts != [] {
      var a, b := PlaceText(Space(little, reach), ts[0]), PlaceText(Space(any, reach), ts[0]);
      if a.Ok? {
        TextsFrom(a.value.space.room, b.value.space.room, a.value.space.reach, ts[1..]);
      }
    }
  }

  lemma BodyFrom(little: nat, any: nat, reach: nat, c: Content)
    requires little < MAX_COUNT
    ensures SameFrom(PlaceBody(Space(little, reach), c), PlaceBody(Space(any, reach), c))
  {
    if c.Many? && reach >= 2 {
      TextsFrom(RoomAfter(little, 2), RoomAfter(any, 2), reach - 2, Kept(Cpp, c.texts));
    }
  }

  /** A list that does not overrun an empty vector is encoded from any vector alike, or given up for the same reason. */
  lemma {:induction false} RoomIsIdle(conv: Converter, little: nat, any: nat, reach: nat, sig: string, vals: seq<Value>)
    requires |sig| == |vals| && little < MAX_COUNT && EncodeIn(conv, Space(little, reach), sig, vals) != Err(Overrun)
    ensures EncodeIn(conv, Space(any, reach), sig, vals) == EncodeIn(conv, Space(little, reach), sig, vals)
    decreases |sig|
  {
    if sig != [] {
      var c := ContentOf(conv, vals[0]);
      if sig[0] == 'v' {
        if reach >= 1 {
          BodyFrom(RoomAfter(little, 1), RoomAfter(any, 1), reach - 1, c);
        }
      } else {
        BodyFrom(little, any, reach, c);
      }
      var a, b := PlaceItem(conv, Space(little, reach), sig[0], vals[0]), PlaceItem(conv, Space(any, reach), sig[0], vals[0]);
      if a.Ok? {
        RoomIsIdle(conv, a.value.space.room, b.value.space.room, a.value.space.reach, sig[1..], vals[1..]);
      }
    }
  }

  /** From one vector of less than 65536 bytes as from another, whatever becomes of it. */
  lemma LittleRoomIsIdle(conv: Converter, a: nat, b: nat, sig: string, vals: seq<Value>)
    requires |sig| == |vals| && a < MAX_COUNT && b < MAX_COUNT
    ensures EncodeFrom(conv, a, sig, vals) == EncodeFrom(conv, b, sig, vals)
  {
    if EncodeFrom(conv, a, sig, vals) != Err(Overrun) {
      RoomIsIdle(conv, a, b, MAX_OFFSET, sig, vals);
    } else if EncodeFrom(conv, b, sig, vals) != Err(Overrun) {
      RoomIsIdle(conv, b, a, MAX_OFFSET, sig, vals);
    }
  }

  // ---- where it does ----

  predicate Oversized(t: Option<seq<byte>>) {
    t.Some? && |t.value| == MAX_COUNT
  }

  function BlankTexts(ts: seq<Option<seq<byte>>>): (r: seq<Option<seq<byte>>>)
    ensures |r| == |ts|
  {
    seq(|ts|, k requires 0 <= k < |ts| => if Oversized(ts[k]) then Some([]) else ts[k])
  }

  /** The value with every text of 65536 bytes replaced by the empty text. */
  function Blanked(conv: Converter, v: Value): Value {
    match v
    case Text(s) => if |s| == MAX_COUNT then Text([]) else v
    case Wide(w) => if Oversized(conv.toBytes(w)) then Wide("") else v
    case Texts(ss) => Texts(seq(|ss|, k requires 0 <= k < |ss| => if |ss[k]| == MAX_COUNT then [] else ss[k]))
    case Wides(ws) => Wides(seq(|ws|, k requires 0 <= k < |ws| => if Oversized(conv.toBytes(ws[k])) then "" else ws[k]))
    case _ => v
  }

  function AllBlanked(conv: Converter, vals: seq<Value>): (r: seq<Value>)
    ensures |r| == |vals|
  {
    seq(|vals|, k requires 0 <= k < |vals| => Blanked(conv, vals[k]))
  }

  lemma BlankedContent(conv: Converter, v: Value)
    requires conv.toBytes("") == Some([])
    ensures Letter(Blanked(conv, v)) == Letter(v)
    ensures ContentOf(conv, Blanked(conv, v)) ==
      match ContentOf(conv, v)
      case One(t) => One(if Oversized(t) then Some([]) else t)
      case Many(ts) => Many(BlankTexts(ts))
      case c => c
  {
    if v.Texts? || v.Wides? {
      assert ContentOf(conv, Blanked(conv, v)).texts == BlankTexts(ContentOf(conv, v).texts);
    }
  }

  lemma BlankText(s: Space, t: Option<seq<byte>>)
    requires PlaceText(s, t).Ok?
    ensures TextBlock(Cpp, if Oversized(t) then Some([]) else t) == Ok(PlaceText(s, t).value.bytes)
  {
    if Oversized(t) {
      assert ToLE(MAX_COUNT, 2) == ToLE(0, 2) == [0, 0];
      assert ToLE(0, 2) + [] == ToLE(0, 2);
    }
  }

  /** Neither the room nor the reach of the offset is exceeded. */
  predicate Defined<T>(r: Result<T>) {
    r != Err(Overrun) && r != Err(Overflow)
  }

  function BytesOf(r: Result<Placed>): Result<seq<byte>> {
    match r case Ok(p) => Ok(p.bytes) case Err(f) => Err(f)
  }

  lemma {:induction false} BlankTextsPlaced(s: Space, ts: seq<Option<seq<byte>>>)
    requires Defined(PlaceTexts(s, ts))
    ensures TextBlocks(Cpp, BlankTexts(ts)) == BytesOf(PlaceTexts(s, ts))
    decreases |ts|
  {
    if ts != [] {
      assert BlankTexts(ts)[1..] == BlankTexts(ts[1..]);
      var first := PlaceText(s, ts[0]);
      if first.Ok? {
        BlankText(s, ts[0]);
        BlankTextsPlaced(first.value.space, ts[1..]);
      }
    }
  }

  lemma BlankBody(s: Space, c: Content)
    requires Defined(PlaceBody(s, c))
    ensures Body(Cpp, match c
                      case One(t) => One(if Oversized(t) then Some([]) else t)
                      case Many(ts) => Many(BlankTexts(ts))
                      case _ => c)
         == BytesOf(PlaceBody(s, c))
  {
    match c
    case One(t) =>
      if PlaceText(s, t).Ok? {
        BlankText(s, t);
      }
    case Many(ts) =>
      if |ts| <= MAX_COUNT {
        assert BlankTexts(Kept(Cpp, ts)) == Kept(Cpp, BlankTexts(ts));
        BlankTextsPlaced(Advance(s, 2).value, Kept(Cpp, ts));
      }
    case _ =>
  }

  lemma BlankItem(conv: Converter, s: Space, t: char, v: Value)
    requires conv.toBytes("") == Some([]) && Defined(PlaceItem(conv, s, t, v))
    ensures EncodeItem(Cpp, conv, t, Blanked(conv, v)) == BytesOf(PlaceItem(conv, s, t, v))
  {
    BlankedContent(conv, v);
    if t == 'v' {
      BlankBody(Advance(s, 1).value, ContentOf(conv, v));
    } else if IsLetter(t) && Letter(v) == t {
      BlankBody(s, ContentOf(conv, v));
    }
  }

  /** Where there is room enough, a text of 65536 bytes goes out as the empty text, and all else as it is. */
  lemma {:induction false} RoomyEncoding(conv: Converter, s: Space, sig: string, vals: seq<Value>)
    requires |sig| == |vals| && conv.toBytes("") == Some([]) && Defined(EncodeIn(conv, s, sig, vals))
    ensures EncodeIn(conv, s, sig, vals) == Encode(Cpp, conv, sig, AllBlanked(conv, vals))
    decreases |sig|
  {
    if sig != [] {
      assert AllBlanked(conv, vals)[1..] == AllBlanked(conv, vals[1..]);
      BlankItem(conv, s, sig[0], vals[0]);
      var p := PlaceItem(conv, s, sig[0], vals[0]);
      if p.Ok? {
        RoomyEncoding(conv, p.value.space, sig[1..], vals[1..]);
      }
    }
  }

  // ---- exactly when it overruns ----

  lemma {:induction false} WordsUseRoom(room: nat, n: nat)
    requires 8 * n <= room
    ensures WordsRoom(room, n) == room - 8 * n
    decreases n
  {
    if n > 0 {
      WordsUseRoom(room - 8, n - 1);
    }
  }

  /** What was placed lay within the room and used up that much of it. */
  predicate UsesRoom(s: Space, r: Result<Placed>) {
    r.Ok? && |r.value.bytes| <= s.room ==> r.value.space.room == s.room - |r.value.bytes|
  }

  predicate NoneOversized(ts: seq<Option<seq<byte>>>) {
    forall k :: 0 <= k < |ts| ==> !Oversized(ts[k])
  }

  lemma {:induction false} TextsUseRoom(s: Space, ts: seq<Option<seq<byte>>>)
    requires NoneOversized(ts)
    ensures UsesRoom(s, PlaceTexts(s, ts))
    decreases |ts|
  {
    if ts != [] && PlaceText(s, ts[0]).Ok? {
      TextsUseRoom(PlaceText(s, ts[0]).value.space, ts[1..]);
    }
  }

  lemma BodyUsesRoom(s: Space, c: Content)
    requires Body(Cpp, c).Ok?
    ensures UsesRoom(s, PlaceBody(s, c))
  {
    match c
    case Vector(ws) =>
      var n := |Kept(Cpp, ws)|;
      WordsLength(Kept(Cpp, ws));
      if s.reach >= 2 && s.room >= 2 + 8 * n {
        WordsUseRoom(s.room - 2, n);
      }
    case Many(ts) =>
      if s.reach >= 2 {
        EncodedTextsFit(Kept(Cpp, ts));
        TextsUseRoom(Advance(s, 2).value, Kept(Cpp, ts));
      }
    case _ =>
  }

  lemma {:induction false} EncodedTextsFit(ts: seq<Option<seq<byte>>>)
    requires TextBlocks(Cpp, ts).Ok?
    ensures NoneOversized(ts)
  {
    if ts != [] {
      EncodedTextsFit(ts[1..]);
      forall k | 0 <= k < |ts|
        ensures !Oversized(ts[k])
      {
        if k > 0 {
          assert ts[k] == ts[1..][k - 1];
        }
      }
    }
  }

  lemma ItemUsesRoom(conv: Converter, s: Space, t: char, v: Value)
    requires EncodeItem(Cpp, conv, t, v).Ok?
    ensures UsesRoom(s, PlaceItem(conv, s, t, v))
  {
    if t == 'v' {
      if s.reach >= 1 {
        BodyUsesRoom(Advance(s, 1).value, ContentOf(conv, v));
      }
    } else {
      BodyUsesRoom(s, ContentOf(conv, v));
    }
  }

  lemma TextOverruns(conv: Converter, s: Space, b: seq<byte>)
    requires |b| == 65536 && s.reach >= 2
    ensures EncodeIn(conv, s, "s", [Text(b)]) == if s.room < 65538 then Err(Overrun) else Ok([0, 0])
  {
    assert ToLE(65536, 2) == [0, 0] && [0, 0] + [] == [0, 0];
    assert "s"[1..] == "" && [Text(b)][1..] == [];
    if s.room >= 65538 {
      assert PlaceItem(conv, s, 's', Text(b)) == Ok(Placed([0, 0], Advance(s, 2).value));
    }
  }

  /**
   Exactly when a text of 65536 bytes overruns the buffer: with less room than that beyond its length, where the list
   before it has been encoded within the room there was. With more it goes out as the empty text.
   */
  lemma {:induction false} OverrunsExactly(conv: Converter, s: Space, sig: string, vals: seq<Value>, b: seq<byte>)
    requires |sig| == |vals| && Encode(Cpp, conv, sig, vals).Ok? && |b| == 65536
    requires |Encode(Cpp, conv, sig, vals).value| <= s.room && |Encode(Cpp, conv, sig, vals).value| + 2 <= s.reach
    ensures var e := Encode(Cpp, conv, sig, vals).value;
      EncodeIn(conv, s, sig + "s", vals + [Text(b)]) == if s.room - |e| < 65538 then Err(Overrun) else Ok(e + [0, 0])
    decreases |sig|
  {
    if sig == [] {
      assert sig + "s" == "s" && vals + [Text(b)] == [Text(b)];
      TextOverruns(conv, s, b);
      assert [] + [0, 0] == [0, 0];
    } else {
      assert (sig + "s")[1..] == sig[1..] + "s" && (vals + [Text(b)])[1..] == vals[1..] + [Text(b)];
      ItemCompared(conv, s, sig[0], vals[0]);
      ItemUsesRoom(conv, s, sig[0], vals[0]);
      var p := PlaceItem(conv, s, sig[0], vals[0]).value;
      OverrunsExactly(conv, p.space, sig[1..], vals[1..], b);
      Assoc(p.bytes, Encode(Cpp, conv, sig[1..], vals[1..]).value, [0, 0]);
    }
  }
}
