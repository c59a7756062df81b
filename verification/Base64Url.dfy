/** Unpadded base64url, as in sections 3.2 and 5 of RFC 4648. */
module Base64Url {
  import opened Wrappers

  type Byte = b: int | 0 <= b < 256

  function Letter(i: int): char
    requires 0 <= i < 64
  {
    if i < 26 then 'A' + i as char
    else if i < 52 then 'a' + (i - 26) as char
    else if i < 62 then '0' + (i - 52) as char
    else if i == 62 then '-' else '_'
  }

  function Value(c: char): (i: Option<int>)
    ensures i.Some? ==> 0 <= i.value < 64 && Letter(i.value) == c
  {
    if 'A' <= c <= 'Z' then Some((c - 'A') as int)
    else if 'a' <= c <= 'z' then Some((c - 'a') as int + 26)
    else if '0' <= c <= '9' then Some((c - '0') as int + 52)
    else if c == '-' then Some(62)
    else if c == '_' then Some(63)
    else None
  }

  predicate Sextets(vs: seq<int>) {
    forall i :: 0 <= i < |vs| ==> 0 <= vs[i] < 64
  }

  /** The second sextet: two bits of one byte, four of the next. */
  function High(a: Byte, b: Byte): (v: int)
    ensures 0 <= v < 64
  {
    a % 4 * 16 + b / 16
  }

  /** The third sextet: four bits of one byte, two of the next. */
  function Low(b: Byte, c: Byte): (v: int)
    ensures 0 <= v < 64
  {
    b % 16 * 4 + c / 64
  }

  predicate Sextet(v: int) {
    0 <= v < 64
  }

  function First(v: int, w: int): Byte
    requires Sextet(v) && Sextet(w)
  {
    v * 4 + w / 16
  }

  function Second(v: int, w: int): Byte
    requires Sextet(v) && Sextet(w)
  {
    v % 16 * 16 + w / 4
  }

  function Third(v: int, w: int): Byte
    requires Sextet(v) && Sextet(w)
  {
    v % 4 * 64 + w
  }

  lemma JoinFirst(a: Byte, b: Byte)
    ensures First(a / 4, High(a, b)) == a
  {
  }

  lemma JoinSecond(a: Byte, b: Byte, c: Byte)
    ensures Second(High(a, b), Low(b, c)) == b
  {
    var q, r := b / 16, b % 16;
    assert High(a, b) % 16 == q by {
      assert High(a, b) == a % 4 * 16 + q && 0 <= q < 16;
    }
    assert Low(b, c) / 4 == r by {
      assert Low(b, c) == r * 4 + c / 64 && 0 <= c / 64 < 4;
    }
  }

  lemma JoinThird(b: Byte, c: Byte)
    ensures Third(Low(b, c), c % 64) == c
  {
  }

  lemma CutFirst(u: int, v: int, w: int)
    requires Sextet(u) && Sextet(v) && Sextet(w)
    ensures First(u, v) / 4 == u
    ensures High(First(u, v), Second(v, w)) == v
    ensures High(First(u, v), 0) == v / 16 * 16
  {
  }

  lemma CutSecond(v: int, w: int, x: int)
    requires Sextet(v) && Sextet(w) && Sextet(x)
    ensures Low(Second(v, w), Third(w, x)) == w
    ensures Low(Second(v, w), 0) == w / 4 * 4
    ensures Third(w, x) % 64 == x
  {
    Digits16(v % 16, w / 4);
    Digits64(w % 4, x);
  }

  lemma Digits16(q: int, r: int)
    requires 0 <= r < 16
    ensures (q * 16 + r) % 16 == r && (q * 16 + r) / 16 == q
  {
  }

  lemma Digits64(q: int, r: int)
    requires 0 <= r < 64
    ensures (q * 64 + r) % 64 == r && (q * 64 + r) / 64 == q
  {
  }

  /** Groups of three bytes become four sextets; a tail of one or two bytes becomes two or three. */
  function Split(bs: seq<Byte>): (vs: seq<int>)
    ensures Sextets(vs)
  {
    if |bs| == 0 then []
    else if |bs| == 1 then [bs[0] / 4, High(bs[0], 0)]
    else if |bs| == 2 then [bs[0] / 4, High(bs[0], bs[1]), Low(bs[1], 0)]
    else [bs[0] / 4, High(bs[0], bs[1]), Low(bs[1], bs[2]), bs[2] % 64] + Split(bs[3..])
  }

  function Letters(vs: seq<int>): (s: string)
    requires Sextets(vs)
    ensures |s| == |vs|
  {
    seq(|vs|, i requires 0 <= i < |vs| => Letter(vs[i]))
  }

  function Encode(bs: seq<Byte>): string {
    Letters(Split(bs))
  }

  function Values(t: string): (r: Option<seq<int>>)
    ensures r.Some? ==> |r.value| == |t| && Sextets(r.value)
    ensures r.Some? ==> forall i :: 0 <= i < |t| ==> Value(t[i]) == Some(r.value[i])
    ensures r.None? ==> exists i :: 0 <= i < |t| && Value(t[i]) == None
  {
    if t == "" then Some([])
    else match (Value(t[0]), Values(t[1..]))
      case (Some(v), Some(vs)) => Some([v] + vs)
      case _ => None
  }

  /** The low bits of a short tail are dropped; a tail of a single letter is malformed. */
  function Bytes(vs: seq<int>): Option<seq<Byte>>
    requires Sextets(vs)
  {
    if |vs| == 0 then Some([])
    else if |vs| == 1 then None
    else if |vs| == 2 then Some([First(vs[0], vs[1])])
    else if |vs| == 3 then Some([First(vs[0], vs[1]), Second(vs[1], vs[2])])
    else
      match Bytes(vs[4..])
      case None => None
      case Some(bs) => Some([First(vs[0], vs[1]), Second(vs[1], vs[2]), Third(vs[2], vs[3])] + bs)
  }

  // The host language's decoder

  /** The decoder also knows the letters of the other base64 alphabet. */
  function CharValue(c: char): (i: Option<int>)
    ensures i.Some? ==> 0 <= i.value < 64
    ensures Value(c).Some? ==> i == Value(c)
  {
    if c == '+' then Some(62) else if c == '/' then Some(63) else Value(c)
  }

  /** How many letters of the current group have been read, the bits they left over, the padding seen since, and the
      bytes put out. */
  datatype Progress = Progress(pos: nat, left: int, pads: nat, out: seq<Byte>)

  predicate Sound(q: Progress) {
    q.pos < 4 && 0 <= q.left && (q.pos == 0 ==> q.left == 0)
    && (q.pos == 1 ==> q.left < 64) && (q.pos == 2 ==> q.left < 16) && (q.pos == 3 ==> q.left < 4)
  }

  const START := Progress(0, 0, 0, [])

  function TakeLetter(q: Progress, v: int): (r: Progress)
    requires Sound(q) && Sextet(v)
    ensures Sound(r)
  {
    if q.pos == 0 then Progress(1, v, 0, q.out)
    else if q.pos == 1 then Progress(2, v % 16, 0, q.out + [q.left * 4 + v / 16])
    else if q.pos == 2 then Progress(3, v % 4, 0, q.out + [q.left * 16 + v / 4])
    else Progress(0, 0, 0, q.out + [q.left * 64 + v])
  }

  /** Characters outside the alphabet are skipped; enough padding ends the input; an unfinished group is an error. */
  function Feed(s: string, q: Progress): Option<seq<Byte>>
    requires Sound(q)
    decreases |s|
  {
    if s == "" then (if q.pos == 0 then Some(q.out) else None)
    else if s[0] == '=' then
      if q.pos >= 2 && q.pos + q.pads + 1 >= 4 then Some(q.out)
      else Feed(s[1..], if q.pos >= 2 then q.(pads := q.pads + 1) else q)
    else match CharValue(s[0])
      case None => Feed(s[1..], q)
      case Some(v) => Feed(s[1..], TakeLetter(q, v))
  }

  /** What brings a length up to a multiple of four. */
  function Padding(n: nat): string {
    if n % 4 == 1 then "===" else if n % 4 == 2 then "==" else if n % 4 == 3 then "=" else ""
  }

  predicate IsAscii(t: string) {
    forall i :: 0 <= i < |t| ==> t[i] as int < 128
  }

  function Decode(t: string): Option<seq<Byte>> {
    if IsAscii(t) then Feed(t + Padding(|t|), START) else None
  }

  function TakeAll(q: Progress, vs: seq<int>): (r: Progress)
    requires Sound(q) && Sextets(vs)
    ensures Sound(r)
    decreases |vs|
  {
    if vs == [] then q else TakeAll(TakeLetter(q, vs[0]), vs[1..])
  }

  lemma {:induction false} FeedLetters(t: string, rest: string, q: Progress)
    requires Sound(q) && Values(t).Some?
    ensures Feed(t + rest, q) == Feed(rest, TakeAll(q, Values(t).value))
  {
    if t == "" {
      assert t + rest == rest;
    } else {
      assert (t + rest)[1..] == t[1..] + rest && (t + rest)[0] == t[0];
      assert Values(t).value[1..] == Values(t[1..]).value;
      assert Value('=') == None;
      hide TakeLetter, Value;
      FeedLetters(t[1..], rest, TakeLetter(q, Value(t[0]).value));
    }
  }

  lemma TakeGroup(out: seq<Byte>, vs: seq<int>)
    requires Sextets(vs) && |vs| >= 4
    ensures TakeAll(Progress(0, 0, 0, out), vs)
         == TakeAll(Progress(0, 0, 0, out + [First(vs[0], vs[1]), Second(vs[1], vs[2]), Third(vs[2], vs[3])]), vs[4..])
  {
    hide TakeAll, TakeLetter, First, Second, Third;
    var q1 := TakeLetter(Progress(0, 0, 0, out), vs[0]);
    var q2 := TakeLetter(q1, vs[1]);
    var q3 := TakeLetter(q2, vs[2]);
    TakeThree(out, vs[0], vs[1], vs[2]);
    TakeFour(out + [First(vs[0], vs[1]), Second(vs[1], vs[2])], vs[2], vs[3]);
    assert out + [First(vs[0], vs[1]), Second(vs[1], vs[2])] + [Third(vs[2], vs[3])]
        == out + [First(vs[0], vs[1]), Second(vs[1], vs[2]), Third(vs[2], vs[3])];
    TakeAllUnfolds(Progress(0, 0, 0, out), vs);
    TakeAllUnfolds(q1, vs[1..]);
    TakeAllUnfolds(q2, vs[2..]);
    TakeAllUnfolds(q3, vs[3..]);
    assert vs[1..][1..] == vs[2..] && vs[2..][1..] == vs[3..] && vs[3..][1..] == vs[4..];
  }

  lemma TakeFour(out: seq<Byte>, w: int, x: int)
    requires Sextet(w) && Sextet(x)
    ensures Sound(Progress(3, w % 4, 0, out))
    ensures TakeLetter(Progress(3, w % 4, 0, out), x) == Progress(0, 0, 0, out + [Third(w, x)])
  {
  }

  lemma TakeAllUnfolds(q: Progress, vs: seq<int>)
    requires Sound(q) && Sextets(vs) && vs != []
    ensures TakeAll(q, vs) == TakeAll(TakeLetter(q, vs[0]), vs[1..])
  {
  }

  /** After all letters of a token the padding either ends the group or leaves a single letter standing. */
  lemma {:induction false} FeedRest(out: seq<Byte>, vs: seq<int>)
    requires Sextets(vs)
    ensures Feed(Padding(|vs|), TakeAll(Progress(0, 0, 0, out), vs))
         == if Bytes(vs).None? then None else Some(out + Bytes(vs).value)
    decreases |vs|
  {
    hide Feed, TakeAll, Bytes, Padding, First, Second, Third, TakeLetter;
    if |vs| >= 4 {
      var group: seq<Byte> := [First(vs[0], vs[1]), Second(vs[1], vs[2]), Third(vs[2], vs[3])];
      TakeGroup(out, vs);
      FeedRest(out + group, vs[4..]);
      SamePadding(|vs|);
      BytesOfGroup(vs);
      if Bytes(vs[4..]).Some? {
        assert out + group + Bytes(vs[4..]).value == out + (group + Bytes(vs[4..]).value);
      }
    } else {
      FeedTail(out, vs);
    }
  }

  lemma BytesOfGroup(vs: seq<int>)
    requires Sextets(vs) && |vs| >= 4
    ensures Bytes(vs) == match Bytes(vs[4..])
                         case None => None
                         case Some(bs) => Some([First(vs[0], vs[1]), Second(vs[1], vs[2]), Third(vs[2], vs[3])] + bs)
  {
    hide First, Second, Third;
  }

  lemma SameRemainder(n: int)
    ensures (n - 4) % 4 == n % 4
  {
  }

  lemma SamePadding(n: nat)
    requires n >= 4
    ensures Padding(n) == Padding(n - 4)
  {
    SameRemainder(n);
  }

  lemma FeedTail(out: seq<Byte>, vs: seq<int>)
    requires Sextets(vs) && |vs| < 4
    ensures Feed(Padding(|vs|), TakeAll(Progress(0, 0, 0, out), vs))
         == if Bytes(vs).None? then None else Some(out + Bytes(vs).value)
  {
    hide Feed, TakeAll, Bytes, Padding, First, Second, Third, TakeLetter;
    BytesOfTail(vs);
    TakeTail(out, vs);
    PaddingOfTail(|vs|);
    var r := TakeAll(Progress(0, 0, 0, out), vs);
    FeedOnlyPadding(r);
    assert out + [] == out;
  }

  lemma BytesOfTail(vs: seq<int>)
    requires Sextets(vs) && |vs| < 4
    ensures Bytes(vs) == if |vs| == 0 then Some([]) else if |vs| == 1 then None
                         else if |vs| == 2 then Some([First(vs[0], vs[1])])
                         else Some([First(vs[0], vs[1]), Second(vs[1], vs[2])])
  {
  }

  lemma PaddingOfTail(n: nat)
    requires n < 4
    ensures Padding(n) == if n == 0 then "" else if n == 1 then "===" else if n == 2 then "==" else "="
  {
  }

  lemma TakeTail(out: seq<Byte>, vs: seq<int>)
    requires Sextets(vs) && |vs| < 4
    ensures var r := TakeAll(Progress(0, 0, 0, out), vs);
            && r.pos == |vs| && r.pads == 0
            && r.out == if |vs| < 2 then out else if |vs| == 2 then out + [First(vs[0], vs[1])]
                        else out + [First(vs[0], vs[1]), Second(vs[1], vs[2])]
  {
    hide TakeAll, TakeLetter, First, Second;
    var q := Progress(0, 0, 0, out);
    NothingToTake(q);
    if |vs| >= 1 {
      var q1 := TakeLetter(q, vs[0]);
      TakeAllUnfolds(q, vs);
      TakeOne(out, vs[0]);
      NothingToTake(q1);
      if |vs| == 1 {
        assert vs[1..] == [];
      } else {
        var q2 := TakeLetter(q1, vs[1]);
        TakeTwo(out, vs[0], vs[1]);
        TakeAllUnfolds(q1, vs[1..]);
        assert vs[1..][1..] == vs[2..];
        NothingToTake(q2);
        if |vs| == 2 {
          assert vs[2..] == [];
        } else {
          TakeAllUnfolds(q2, vs[2..]);
          TakeThree(out, vs[0], vs[1], vs[2]);
          assert vs[2..][1..] == [];
          NothingToTake(TakeLetter(q2, vs[2]));
        }
      }
    }
  }

  lemma NothingToTake(q: Progress)
    requires Sound(q)
    ensures TakeAll(q, []) == q
  {
  }

  lemma TakeOne(out: seq<Byte>, u: int)
    requires Sextet(u)
    ensures TakeLetter(Progress(0, 0, 0, out), u) == Progress(1, u, 0, out)
  {
  }

  lemma TakeTwo(out: seq<Byte>, u: int, v: int)
    requires Sextet(u) && Sextet(v)
    ensures TakeLetter(TakeLetter(Progress(0, 0, 0, out), u), v) == Progress(2, v % 16, 0, out + [First(u, v)])
  {
  }

  lemma TakeThree(out: seq<Byte>, u: int, v: int, w: int)
    requires Sextet(u) && Sextet(v) && Sextet(w)
    ensures TakeLetter(TakeLetter(TakeLetter(Progress(0, 0, 0, out), u), v), w)
         == Progress(3, w % 4, 0, out + [First(u, v), Second(v, w)])
  {
    TakeTwo(out, u, v);
    var q := Progress(2, v % 16, 0, out + [First(u, v)]);
    hide First;
    assert TakeLetter(q, w).out == out + [First(u, v)] + [Second(v, w)];
    assert out + [First(u, v)] + [Second(v, w)] == out + [First(u, v), Second(v, w)];
  }

  lemma FeedOnlyPadding(q: Progress)
    requires Sound(q) && q.pads == 0
    ensures q.pos == 0 ==> Feed("", q) == Some(q.out)
    ensures q.pos == 1 ==> Feed("===", q) == None
    ensures q.pos == 2 ==> Feed("==", q) == Some(q.out)
    ensures q.pos == 3 ==> Feed("=", q) == Some(q.out)
  {
    assert "==="[1..] == "==" && "=="[1..] == "=" && "="[1..] == "";
    if q.pos == 1 {
      assert Feed("", q) == None;
      assert Feed("=", q) == None;
      assert Feed("==", q) == None;
    } else if q.pos == 2 {
      assert Feed("=", q.(pads := 1)) == Some(q.out);
    }
  }

  lemma LettersAreAscii(t: string)
    requires Values(t).Some?
    ensures IsAscii(t)
  {
    forall i | 0 <= i < |t| ensures t[i] as int < 128 {
      assert Value(t[i]) == Some(Values(t).value[i]);
    }
  }

  /** On tokens of the alphabet the decoder takes groups of four letters apart. */
  lemma DecodeOfLetters(t: string)
    requires Values(t).Some?
    ensures Decode(t) == Bytes(Values(t).value)
  {
    var vs := Values(t).value;
    FeedLetters(t, Padding(|t|), START);
    FeedRest([], vs);
    LettersAreAscii(t);
    if Bytes(vs).Some? {
      assert [] + Bytes(vs).value == Bytes(vs).value;
    }
    hide Feed, TakeAll, Bytes, Values;
  }

  lemma ValueOfLetter(i: int)
    requires 0 <= i < 64
    ensures Value(Letter(i)) == Some(i)
  {
  }

  lemma ValuesOfLetters(vs: seq<int>)
    requires Sextets(vs)
    ensures Values(Letters(vs)) == Some(vs)
  {
    var s := Letters(vs);
    forall i | 0 <= i < |vs| ensures Value(s[i]) == Some(vs[i]) {
      ValueOfLetter(vs[i]);
    }
    assert Values(s).Some?;
    assert Values(s).value == vs;
  }

  lemma LettersOfValues(t: string)
    requires Values(t).Some?
    ensures Sextets(Values(t).value) && Letters(Values(t).value) == t
  {
    var vs := Values(t).value;
    forall i | 0 <= i < |t| ensures 0 <= vs[i] < 64 && Letter(vs[i]) == t[i] {
      assert Value(t[i]) == Some(vs[i]);
    }
    assert Letters(vs) == t;
  }

  lemma {:induction false} BytesOfSplit(bs: seq<Byte>)
    ensures Bytes(Split(bs)) == Some(bs)
  {
    hide High, Low, First, Second, Third;
    if |bs| == 1 {
      JoinFirst(bs[0], 0);
      assert bs == [bs[0]];
    } else if |bs| == 2 {
      JoinFirst(bs[0], bs[1]);
      JoinSecond(bs[0], bs[1], 0);
      assert bs == [bs[0], bs[1]];
    } else if |bs| >= 3 {
      JoinFirst(bs[0], bs[1]);
      JoinSecond(bs[0], bs[1], bs[2]);
      JoinThird(bs[1], bs[2]);
      BytesOfSplit(bs[3..]);
      var vs := Split(bs);
      assert vs[4..] == Split(bs[3..]);
      assert vs[0] == bs[0] / 4 && vs[1] == High(bs[0], bs[1]) && vs[2] == Low(bs[1], bs[2]) && vs[3] == bs[2] % 64;
      assert Bytes(vs) == Some([First(vs[0], vs[1]), Second(vs[1], vs[2]), Third(vs[2], vs[3])] + bs[3..]);
      assert bs == [bs[0], bs[1], bs[2]] + bs[3..];
    }
  }

  /** The bits of the last sextet that the byte string does not use are zero. */
  predicate CleanTail(vs: seq<int>) {
    if |vs| == 2 then vs[1] / 16 * 16 == vs[1]
    else if |vs| == 3 then vs[2] / 4 * 4 == vs[2]
    else |vs| < 4 || CleanTail(vs[4..])
  }

  lemma {:induction false} BytesAccepts(vs: seq<int>)
    requires Sextets(vs)
    ensures Bytes(vs).Some? <==> |vs| % 4 != 1
  {
    hide First, Second, Third;
    if |vs| >= 4 {
      BytesAccepts(vs[4..]);
      SameRemainder(|vs|);
    }
  }

  lemma {:induction false} SplitOfBytes(vs: seq<int>)
    requires Sextets(vs) && Bytes(vs).Some?
    ensures Split(Bytes(vs).value) == vs <==> CleanTail(vs)
  {
    hide High, Low, First, Second, Third;
    if |vs| == 2 {
      CutFirst(vs[0], vs[1], 0);
      assert vs == [vs[0], vs[1]];
    } else if |vs| == 3 {
      CutFirst(vs[0], vs[1], vs[2]);
      CutSecond(vs[1], vs[2], 0);
      assert vs == [vs[0], vs[1], vs[2]];
    } else if |vs| >= 4 {
      SplitOfBytes(vs[4..]);
      var bs := Bytes(vs[4..]).value;
      var all := Bytes(vs).value;
      CutFirst(vs[0], vs[1], vs[2]);
      CutSecond(vs[1], vs[2], vs[3]);
      assert all[3..] == bs;
      assert Split(all) == vs[..4] + Split(bs);
      assert vs == vs[..4] + vs[4..];
      assert Split(all)[4..] == Split(bs);
    }
  }

  /** Decoding gives back every byte string that was encoded. */
  lemma DecodeEncode(bs: seq<Byte>)
    ensures Decode(Encode(bs)) == Some(bs)
  {
    ValuesOfLetters(Split(bs));
    BytesOfSplit(bs);
    DecodeOfLetters(Encode(bs));
    hide Decode, Values, Bytes, Split, Letters;
  }

  /** Encoding gives back a token that decodes exactly when the token has letters of the alphabet only, not one more
      than a multiple of four, and no bits set in its last letter that the bytes do not use. */
  lemma EncodeDecode(t: string)
    ensures Decode(t).Some? && Encode(Decode(t).value) == t
       <==> Values(t).Some? && |t| % 4 != 1 && CleanTail(Values(t).value)
  {
    if Decode(t).Some? && Encode(Decode(t).value) == t {
      ValuesOfLetters(Split(Decode(t).value));
    }
    hide Decode, Bytes, Split, CleanTail, Letters;
    if Values(t).Some? {
      var vs := Values(t).value;
      DecodeOfLetters(t);
      LettersOfValues(t);
      BytesAccepts(vs);
      if Bytes(vs).Some? {
        SplitOfBytes(vs);
        if Encode(Bytes(vs).value) == t {
          ValuesOfLetters(Split(Bytes(vs).value));
        }
      }
    }
  }

  // Letters, bits and stray characters, spelled out

  /** The alphabet is the table of section 5 of RFC 4648. */
  lemma AlphabetIsTable(i: int)
    requires 0 <= i < 64
    ensures i < 26 ==> Letter(i) == "ABCDEFGHIJKLMNOPQRSTUVWXYZ"[i]
    ensures 26 <= i < 52 ==> Letter(i) == "abcdefghijklmnopqrstuvwxyz"[i - 26]
    ensures 52 <= i ==> Letter(i) == "0123456789-_"[i - 52]
  {
    if i < 26 {
      UpperCase(i);
    } else if i < 52 {
      LowerCase(i - 26);
    } else {
      TenDigits(i - 52);
    }
  }

  lemma UpperCase(i: nat)
    requires i < 26
    ensures 'A' + i as char == "ABCDEFGHIJKLMNOPQRSTUVWXYZ"[i]
  {
  }

  lemma LowerCase(i: nat)
    requires i < 26
    ensures 'a' + i as char == "abcdefghijklmnopqrstuvwxyz"[i]
  {
  }

  lemma TenDigits(i: nat)
    requires i < 12
    ensures "0123456789-_"[i] == if i < 10 then '0' + i as char else if i == 10 then '-' else '_'
  {
  }

  /** Three bytes are one number in base 256 and in base 64; a shorter tail is filled up with zero bits. */
  lemma SplitKeepsBits(a: Byte, b: Byte, c: Byte, rest: seq<Byte>)
    ensures var s := Split([a, b, c]);
            |s| == 4 && a * 65536 + b * 256 + c == s[0] * 262144 + s[1] * 4096 + s[2] * 64 + s[3]
    ensures var s := Split([a, b]); |s| == 3 && (a * 256 + b) * 4 == s[0] * 4096 + s[1] * 64 + s[2]
    ensures var s := Split([a]); |s| == 2 && a * 16 == s[0] * 64 + s[1]
    ensures Split([a, b, c] + rest) == Split([a, b, c]) + Split(rest) && Split([]) == []
  {
    Cut(a, 4);
    Cut(b, 16);
    Cut(c, 64);
    assert [a, b, c][3..] == [] && ([a, b, c] + rest)[3..] == rest;
  }

  lemma Cut(n: int, k: int)
    requires k > 0
    ensures n == n / k * k + n % k
  {
  }

  /** Characters outside both base64 alphabets, except the padding character. */
  predicate IsForeign(c: char) {
    !('A' <= c <= 'Z') && !('a' <= c <= 'z') && !('0' <= c <= '9') && c !in "-_+/="
  }

  lemma {:induction false} ForeignIsSkipped(s: string, c: char, t: string, q: Progress)
    requires Sound(q) && IsForeign(c)
    ensures Feed(s + [c] + t, q) == Feed(s + t, q)
    decreases |s|
  {
    hide TakeLetter;
    if s == "" {
      assert s + [c] + t == [c] + t && s + t == t;
      assert ([c] + t)[1..] == t && CharValue(c) == None;
    } else {
      assert (s + [c] + t)[1..] == s[1..] + [c] + t && (s + t)[1..] == s[1..] + t;
      if s[0] == '=' {
        ForeignIsSkipped(s[1..], c, t, if q.pos >= 2 then q.(pads := q.pads + 1) else q);
      } else {
        ForeignIsSkipped(s[1..], c, t, match CharValue(s[0]) case None => q case Some(v) => TakeLetter(q, v));
      }
    }
  }

  lemma {:induction false} PlaceInGroup(q: Progress, vs: seq<int>)
    requires Sound(q) && Sextets(vs) && q.pads == 0
    ensures TakeAll(q, vs).pads == 0 && TakeAll(q, vs).pos == (q.pos + |vs|) % 4
    decreases |vs|
  {
    if vs != [] {
      PlaceInGroup(TakeLetter(q, vs[0]), vs[1..]);
      if q.pos == 3 {
        SameRemainder(q.pos + |vs|);
      }
    }
  }

  /** Behind letters that leave two or three in the last group, enough padding ends the token, whatever follows;
      padding that comes too early or is followed by another letter too soon counts for nothing. */
  lemma PaddingEnds(ls: string, rest: string)
    requires Values(ls).Some?
    ensures |ls| % 4 == 2 ==> Feed(ls + ("==" + rest), START) == Bytes(Values(ls).value)
    ensures |ls| % 4 == 3 ==> Feed(ls + ("=" + rest), START) == Bytes(Values(ls).value)
    ensures |ls| % 4 <= 1 ==> Feed(ls + ("=" + rest), START) == Feed(ls + rest, START)
    ensures |ls| % 4 == 2 && rest != "" && Value(rest[0]).Some? ==>
      Feed(ls + ("=" + rest), START) == Feed(ls + rest, START)
  {
    hide Feed, TakeAll, Values, Bytes, Value, TakeLetter;
    var vs := Values(ls).value;
    FeedLetters(ls, rest, START);
    FeedLetters(ls, "=" + rest, START);
    FeedLetters(ls, "==" + rest, START);
    PlaceFromStart(vs);
    EndOfLetters(vs);
    PaddingStep(TakeAll(START, vs), rest);
  }

  lemma PlaceFromStart(vs: seq<int>)
    requires Sextets(vs)
    ensures TakeAll(START, vs).pads == 0 && TakeAll(START, vs).pos == |vs| % 4
  {
    PlaceInGroup(START, vs);
  }

  /** What has been put out behind all letters. */
  lemma EndOfLetters(vs: seq<int>)
    requires Sextets(vs)
    ensures |vs| % 4 >= 2 ==> Bytes(vs) == Some(TakeAll(START, vs).out)
  {
    var q := TakeAll(START, vs);
    PlaceInGroup(START, vs);
    FeedRest([], vs);
    FeedOnlyPadding(q);
    hide TakeAll, Bytes, Feed;
    if Bytes(vs).Some? {
      assert [] + Bytes(vs).value == Bytes(vs).value;
    }
  }

  lemma PaddingStep(q: Progress, rest: string)
    requires Sound(q) && q.pads == 0
    ensures q.pos == 2 ==> Feed("==" + rest, q) == Some(q.out)
    ensures q.pos == 3 ==> Feed("=" + rest, q) == Some(q.out)
    ensures q.pos <= 1 ==> Feed("=" + rest, q) == Feed(rest, q)
    ensures q.pos == 2 && rest != "" && Value(rest[0]).Some? ==> Feed("=" + rest, q) == Feed(rest, q)
  {
    FeedPadding(rest, q);
    if q.pos == 2 {
      FeedPadding("=" + rest, q);
      FeedPadding(rest, q.(pads := 1));
      assert "==" + rest == "=" + ("=" + rest);
      if rest != "" && Value(rest[0]).Some? {
        LetterResetsPadding(rest, q);
      }
    }
    hide Feed, Value;
  }

  lemma FeedPadding(rest: string, q: Progress)
    requires Sound(q)
    ensures Feed("=" + rest, q)
         == if q.pos >= 2 && q.pos + q.pads + 1 >= 4 then Some(q.out)
            else Feed(rest, if q.pos >= 2 then q.(pads := q.pads + 1) else q)
  {
    assert ("=" + rest)[1..] == rest;
  }

  lemma LetterResetsPadding(rest: string, q: Progress)
    requires Sound(q) && rest != "" && Value(rest[0]).Some?
    ensures Feed(rest, q.(pads := 1)) == Feed(rest, q.(pads := 0))
  {
    assert rest[0] != '=' && TakeLetter(q.(pads := 1), CharValue(rest[0]).value) == TakeLetter(q.(pads := 0), CharValue(rest[0]).value);
  }

  /** The two letters of the other alphabet are taken as well. */
  lemma OtherAlphabetIsRead(t: string, q: Progress)
    requires Sound(q)
    ensures Feed("+" + t, q) == Feed("-" + t, q) && Feed("/" + t, q) == Feed("_" + t, q)
  {
    assert ("+" + t)[1..] == t && ("-" + t)[1..] == t && ("/" + t)[1..] == t && ("_" + t)[1..] == t;
  }

  /** Tokens with other than ASCII characters are refused. */
  lemma OnlyAsciiDecodes(t: string)
    ensures Decode(t).Some? ==> forall c :: c in t ==> c as int < 128
  {
  }
}
