/** Reading a parameter out of a query string: percent-decoding in place, and the round trip with section 2.1 of RFC 3986.
    Bytes are unsigned, as char is on this processor; a C string is given by its bytes before the NUL. */
module Query {
  import opened Sequences
  import opened Wrappers

  type Text = seq<bv8>

  const NUL: bv8 := 0x00
  const SPACE: bv8 := 0x20
  const PERCENT: bv8 := 0x25
  const AMPERSAND: bv8 := 0x26
  const PLUS: bv8 := 0x2B
  const EQUALS: bv8 := 0x3D
  const QUESTION: bv8 := 0x3F

  /** The decoder's reading of a digit, whatever byte stands there. */
  function HexValue(c: bv8): bv8 {
    if c >= 0x61 then c - 0x61 + 10 else if c >= 0x41 then c - 0x41 + 10 else c - 0x30
  }

  function Decode(s: Text): (d: Text)
    ensures |d| <= |s|
  {
    if s == [] then []
    else if s[0] == PERCENT && |s| >= 3 then [(HexValue(s[1]) << 4) | HexValue(s[2])] + Decode(s[3..])
    else if s[0] == PLUS then [SPACE] + Decode(s[1..])
    else [s[0]] + Decode(s[1..])
  }

  /** Decoding from a position: what one turn of the decoder's loop consumes and yields. */
  lemma DecodeFrom(s: Text, src: nat)
    requires src < |s|
    ensures var d := Decode(s[src..]);
            if s[src] == PERCENT && src + 2 < |s| then d == [(HexValue(s[src + 1]) << 4) | HexValue(s[src + 2])] + Decode(s[src + 3..])
            else if s[src] == PLUS then d == [SPACE] + Decode(s[src + 1..])
            else d == [s[src]] + Decode(s[src + 1..])
  {}

  /** The buffer holds s and a NUL after it. */
  ghost predicate Holds(buf: array<bv8>, s: Text)
    reads buf
  {
    |s| < buf.Length && buf[..|s|] == s && buf[|s|] == NUL
  }

  /** One turn of the decoder's loop: the byte it yields and how far it reads. */
  method Take(buf: array<bv8>, src: nat, ghost s: Text) returns (b: bv8, width: nat)
    requires NUL !in s && src < |s| < buf.Length && buf[|s|] == NUL
    requires forall k :: src <= k < |s| ==> buf[k] == s[k]
    ensures 0 < width && src + width <= |s|
    ensures Decode(s[src..]) == [b] + Decode(s[src + width..])
  {
    DecodeFrom(s, src);
    b, width := buf[src], 1;
    if b == PERCENT {
      if buf[src + 1] != NUL && buf[src + 2] != NUL {
        b, width := (HexValue(buf[src + 1]) << 4) | HexValue(buf[src + 2]), 3;
      }
    } else if b == PLUS {
      b := SPACE;
    }
  }

  /** The buffer in mid-decoding: decoded so far up to dst, the rest of the text unread from src on, the tail as it was. */
  ghost predicate Decoding(buf: array<bv8>, s: Text, was: Text, dst: nat, src: nat)
    reads buf
  {
    && dst <= src <= |s| < buf.Length == |was|
    && (forall k :: src <= k < |s| ==> buf[k] == s[k])
    && (forall k :: |s| <= k < buf.Length ==> buf[k] == was[k])
    && buf[..dst] + Decode(s[src..]) == Decode(s)
  }

  /** One turn of the loop: take a byte, write it, move both pointers. */
  method Turn(buf: array<bv8>, dst: nat, src: nat, ghost s: Text, ghost was: Text) returns (dst': nat, src': nat)
    requires Decoding(buf, s, was, dst, src) && src < |s| && NUL !in s && was[|s|] == NUL
    modifies buf
    ensures Decoding(buf, s, was, dst', src') && src < src'
  {
    ghost var done := buf[..dst];
    var b, width := Take(buf, src, s);
    dst', src' := dst + 1, src + width;
    Regroup(done, [b], Decode(s[src'..]));
    assert (done + [b]) + Decode(s[src'..]) == Decode(s);
    Write(buf, dst, b);
    assert buf[..dst'] == done + [b];
  }

  /** url_decode with both pointers into the same buffer: the write position never overtakes the read position, so every byte
      is read before it is overwritten, and nothing past the text's own NUL changes. */
  method UrlDecode(buf: array<bv8>, ghost s: Text)
    requires Holds(buf, s) && NUL !in s
    modifies buf
    ensures Holds(buf, Decode(s))
    ensures buf[|s| + 1..] == old(buf[|s| + 1..])
  {
    var dst: nat, src: nat := 0, 0;
    ghost var was := buf[..];
    assert s[0..] == s;
    while buf[src] != NUL
      invariant Decoding(buf, s, was, dst, src)
      decreases |s| - src
    {
      dst, src := Turn(buf, dst, src, s, was);
    }
    assert buf[..dst] == Decode(s);
    buf[dst] := NUL;
  }

  method Write(buf: array<bv8>, dst: nat, b: bv8)
    requires dst < buf.Length
    modifies buf
    ensures buf[..dst + 1] == old(buf[..dst]) + [b]
    ensures forall k :: dst < k < buf.Length ==> buf[k] == old(buf[k])
  {
    buf[dst] := b;
  }

  /** strstr: the first position at which the needle occurs. */
  function IndexOf(hay: Text, needle: Text): Option<nat> {
    if needle <= hay then Some(0)
    else if hay == [] then None
    else match IndexOf(hay[1..], needle)
      case None => None
      case Some(i) => Some(i + 1)
  }

  lemma {:induction false} InBounds(hay: Text, needle: Text)
    ensures var i := IndexOf(hay, needle); i.Some? ==> i.value + |needle| <= |hay| && needle <= hay[i.value..]
  {
    if needle <= hay {
      assert hay[0..] == hay;
    } else if hay != [] {
      InBounds(hay[1..], needle);
      var i := IndexOf(hay[1..], needle);
      if i.Some? {
        assert hay[1..][i.value..] == hay[i.value + 1..];
      }
    }
  }

  /** The needle occurs here and nowhere before. */
  ghost predicate IsFirst(hay: Text, needle: Text, i: nat) {
    i <= |hay| && needle <= hay[i..] && forall j :: 0 <= j < i ==> !(needle <= hay[j..])
  }

  /** Past a position where the text does not occur, the search goes on in the rest. */
  lemma FirstShifts(hay: Text, needle: Text, i: nat)
    requires !(needle <= hay) && 0 < i <= |hay|
    ensures IsFirst(hay, needle, i) <==> IsFirst(hay[1..], needle, i - 1)
  {
    var rest := hay[1..];
    assert hay[0..] == hay;
    assert forall j :: 0 <= j < i ==> rest[j..] == hay[j + 1..];
    if IsFirst(rest, needle, i - 1) {
      forall j | 0 <= j < i ensures !(needle <= hay[j..]) {
        assert j > 0 ==> hay[j..] == rest[j - 1..];
      }
    }
  }

  lemma FirstHere(hay: Text, needle: Text, i: nat)
    requires needle <= hay || i == 0 || i > |hay|
    ensures IsFirst(hay, needle, i) <==> i == 0 && needle <= hay
  {
    assert hay[0..] == hay;
  }

  lemma {:induction false} FirstOccurrence(hay: Text, needle: Text, i: nat)
    ensures IndexOf(hay, needle) == Some(i) <==> IsFirst(hay, needle, i)
  {
    if needle <= hay || i == 0 || i > |hay| {
      InBounds(hay, needle);
      FirstHere(hay, needle, i);
    } else {
      FirstShifts(hay, needle, i);
      FirstOccurrence(hay[1..], needle, i - 1);
    }
  }

  /** What comes before the first c. */
  function UpTo(s: Text, c: bv8): (u: Text)
    ensures u <= s && c !in u
    ensures u == s || s[|u|] == c
  {
    if s == [] || s[0] == c then [] else [s[0]] + UpTo(s[1..], c)
  }

  /** The text after "key=" if the key stands at that position and is followed by "=", up to the next ampersand. */
  function ValueAt(query: Text, key: Text, i: nat): (v: Option<Text>)
    requires i + |key| <= |query|
    ensures v.Some? && NUL !in query ==> NUL !in v.value
  {
    var k := query[i + |key|..];
    if k != [] && k[0] == EQUALS then Some(UpTo(k[1..], AMPERSAND)) else None
  }

  /** The value at the position strstr finds; an empty query has none. */
  function RawValue(query: Text, key: Text): (v: Option<Text>)
    ensures v.Some? && NUL !in query ==> NUL !in v.value
  {
    match if query == [] then None else IndexOf(query, key)
    case None => None
    case Some(i) =>
      assert i + |key| <= |query| by { InBounds(query, key); }
      ValueAt(query, key, i)
  }

  /** Which occurrence of the key is read: the one at i if and only if it is the first, whatever follows it; and nothing is
      found in a query without the key text. */
  lemma FirstIsRead(query: Text, key: Text, i: nat)
    requires query != []
    ensures IndexOf(query, key) == Some(i) <==> IsFirst(query, key, i)
    ensures IsFirst(query, key, i) ==> i + |key| <= |query| && RawValue(query, key) == ValueAt(query, key, i)
    ensures (forall j: nat :: !IsFirst(query, key, j)) ==> RawValue(query, key) == None
  {
    FirstOccurrence(query, key, i);
    InBounds(query, key);
    if IndexOf(query, key).Some? {
      FirstOccurrence(query, key, IndexOf(query, key).value);
    }
  }

  /** get_query_val: what it leaves in an output buffer of that size. */
  function QueryValue(query: Text, key: Text, size: nat): Option<Text>
    requires size > 0
  {
    match RawValue(query, key)
    case None => None
    case Some(v) => Some(Decode(v[..Clip(|v|, size)]))
  }

  function Clip(length: nat, size: nat): nat
    requires size > 0
  {
    if length >= size then size - 1 else length
  }

  method GetQueryVal(query: Option<Text>, key: Text, out: array<bv8>) returns (found: bool)
    requires out.Length > 0 && (query.Some? ==> NUL !in query.value)
    modifies out
    ensures var v := if query.None? then None else QueryValue(query.value, key, out.Length);
            found == v.Some? && if found then Holds(out, v.value) else out[..] == old(out[..])
  {
    if query.None? {
      return false;
    }
    var raw := RawValue(query.value, key);
    if raw.None? {
      return false;
    }
    var len := Clip(|raw.value|, out.Length);
    for i := 0 to len
      invariant out[..i] == raw.value[..i]
    {
      out[i] := raw.value[i];
    }
    out[len] := NUL;
    UrlDecode(out, raw.value[..len]);
    return true;
  }

  /** Section 2.3 of RFC 3986: letters, digits, hyphen, period, underscore, tilde. */
  predicate Unreserved(c: bv8) {
    0x61 <= c <= 0x7A || 0x41 <= c <= 0x5A || 0x30 <= c <= 0x39 || c == 0x2D || c == 0x2E || c == 0x5F || c == 0x7E
  }

  /** c is a hexadecimal digit for that number, in either case. */
  predicate IsDigit(c: bv8, n: bv8) {
    n < 16 && if n < 10 then c == 0x30 + n else c == 0x41 + (n - 10) || c == 0x61 + (n - 10)
  }

  predicate IsEscape(e: Text, b: bv8) {
    |e| == 3 && e[0] == PERCENT && IsDigit(e[1], b >> 4) && IsDigit(e[2], b & 0xF)
  }

  /** Section 2.1 of RFC 3986, and forms as browsers send them: e is a percent-encoding of v, each byte escaped, or written as
      itself if it is unreserved, or as a plus sign if it is a space. */
  predicate Encodes(e: Text, v: Text)
    decreases v, 1
  {
    if v == [] then e == []
    else Head(e, v, 1) || Head(e, v, 3)
  }

  /** The encoding of one byte and of the rest. */
  predicate Head(e: Text, v: Text, width: nat)
    requires v != []
    decreases v, 0
  {
    && |e| >= width && Encodes(e[width..], v[1..])
    && if width == 1 then (Unreserved(v[0]) && e[0] == v[0]) || (v[0] == 0x20 && e[0] == 0x2B)
       else width == 3 && IsEscape(e[..3], v[0])
  }

  /** The usual encoder: upper-case escapes for everything that is not unreserved. */
  function PercentEncode(v: Text): (e: Text)
    ensures Encodes(e, v)
  {
    if v == [] then []
    else
      var rest := PercentEncode(v[1..]);
      if Unreserved(v[0]) then
        var e := [v[0]] + rest;
        assert e[1..] == rest && Head(e, v, 1);
        e
      else
        var e := [PERCENT, UpperDigit(v[0] >> 4), UpperDigit(v[0] & 0xF)] + rest;
        assert e[3..] == rest && e[..3] == [PERCENT, UpperDigit(v[0] >> 4), UpperDigit(v[0] & 0xF)] && Head(e, v, 3);
        e
  }

  function UpperDigit(n: bv8): bv8 {
    if n < 10 then 0x30 + n else 0x41 + (n - 10)
  }

  lemma HeadRead(e: Text, v: Text, width: nat)
    requires v != [] && Head(e, v, width)
    ensures Decode(e) == [v[0]] + Decode(e[width..])
    ensures AMPERSAND !in e[..width] && NUL !in e[..width]
  {}

  /** Whatever encoder made it: decoding gives the value back, and the encoding holds no byte that would end it early. */
  lemma {:induction false} DecodeEncoded(e: Text, v: Text)
    requires Encodes(e, v)
    ensures Decode(e) == v
    ensures AMPERSAND !in e && NUL !in e
  {
    if v != [] {
      var width := if Head(e, v, 1) then 1 else 3;
      HeadRead(e, v, width);
      DecodeEncoded(e[width..], v[1..]);
      assert e == e[..width] + e[width..];
    }
  }

  lemma {:induction false} UpToStops(u: Text, c: bv8, rest: Text)
    requires c !in u && (rest == [] || rest[0] == c)
    ensures UpTo(u + rest, c) == u
  {
    if u == [] {
      assert u + rest == rest;
    } else {
      UpToStops(u[1..], c, rest);
      assert (u + rest)[1..] == u[1..] + rest;
    }
  }

  lemma Drop(a: Text, b: Text)
    ensures (a + b)[|a|..] == b
  {}

  lemma RawFrom(query: Text, key: Text, i: nat, value: Text)
    requires i + |key| <= |query| && query[i + |key|..] == [EQUALS] + value && IndexOf(query, key) == Some(i)
    ensures RawValue(query, key) == Some(UpTo(value, AMPERSAND))
  {}

  lemma RawRoundTrip(query: Text, before: Text, key: Text, e: Text, after: Text)
    requires query == before + (key + ([EQUALS] + (e + after)))
    requires AMPERSAND !in e && (after == [] || after[0] == AMPERSAND)
    requires forall j :: 0 <= j < |before| ==> !(key <= query[j..])
    ensures RawValue(query, key) == Some(e)
  {
    var rest := [EQUALS] + (e + after);
    Drop(before, key + rest);
    FirstOccurrence(query, key, |before|);
    Drop(key, rest);
    assert query[|before| + |key|..] == query[|before|..][|key|..];
    RawFrom(query, key, |before|, e + after);
    UpToStops(e, AMPERSAND, after);
  }

  /** Query round trip: a value under any percent-encoding comes back whole if the encoding fits the buffer and the key text
      does not occur earlier in the query. */
  lemma QueryRoundTrip(query: Text, before: Text, key: Text, e: Text, v: Text, after: Text, size: nat)
    requires query == before + (key + ([EQUALS] + (e + after)))
    requires Encodes(e, v) && |e| < size
    requires after == [] || after[0] == AMPERSAND
    requires forall j :: 0 <= j < |before| ==> !(key <= query[j..])
    ensures QueryValue(query, key, size) == Some(v)
  {
    DecodeEncoded(e, v);
    RawRoundTrip(query, before, key, e, after);
    assert e[..|e|] == e;
  }

  /** A value whose encoding does not fit is cut to one byte less than the buffer before it is decoded. */
  lemma QueryCut(query: Text, before: Text, key: Text, e: Text, v: Text, after: Text, size: nat)
    requires query == before + (key + ([EQUALS] + (e + after)))
    requires Encodes(e, v) && 0 < size <= |e|
    requires after == [] || after[0] == AMPERSAND
    requires forall j :: 0 <= j < |before| ==> !(key <= query[j..])
    ensures QueryValue(query, key, size) == Some(Decode(e[..size - 1]))
  {
    DecodeEncoded(e, v);
    RawRoundTrip(query, before, key, e, after);
  }

  /** A key whose first occurrence is not followed by an equals sign has no value, even if a later one is. */
  lemma NoValue(query: Text, key: Text, i: nat, size: nat)
    requires IsFirst(query, key, i) && size > 0
    requires i + |key| < |query| ==> query[i + |key|] != 0x3D
    ensures QueryValue(query, key, size) == None
  {
    if query != [] {
      FirstIsRead(query, key, i);
    }
  }

  /** A byte that is neither a percent sign nor a plus stands for itself. */
  lemma {:induction false} PlainFirst(s: Text, t: Text)
    requires PERCENT !in s && PLUS !in s
    ensures Decode(s + t) == s + Decode(t)
  {
    if s == [] {
      assert s + t == t;
    } else {
      assert (s + t)[1..] == s[1..] + t;
      PlainFirst(s[1..], t);
    }
  }

  lemma CutAlone(n: bv8)
    ensures Decode([0x25]) == [0x25]
    ensures n != PLUS ==> Decode([0x25, n]) == [0x25, n]
  {
    assert [0x25, n][1..] == [n] && [n][1..] == [];
  }

  /** An escape that the text ends in is left as it stands. */
  lemma CutEscape(s: Text, n: bv8)
    requires PERCENT !in s && PLUS !in s && n != PLUS
    ensures Decode(s + [0x25]) == s + [0x25] && Decode(s + [0x25, n]) == s + [0x25, n]
  {
    PlainFirst(s, [0x25]);
    PlainFirst(s, [0x25, n]);
    CutAlone(n);
  }

  /** The condition is needed: the key is looked for as text, so "id" is found inside "new_id", and a rename whose URL gives
      the new id first reads the new id for both. */
  lemma KeyFoundInsideAnother(query: Text, e: Text, v: Text, after: Text, size: nat)
    requires query == [QUESTION] + (NEW_ID + ([EQUALS] + (e + ([AMPERSAND] + after))))
    requires Encodes(e, v) && |e| < size
    ensures QueryValue(query, ID, size) == Some(v)
    ensures QueryValue(query, NEW_ID, size) == Some(v)
  {
    var tail := [EQUALS] + (e + ([AMPERSAND] + after));
    var before := [QUESTION] + NEW_ID[..4];
    assert NEW_ID == NEW_ID[..4] + ID;
    assert query == before + (ID + tail);
    forall j | 0 <= j < 5
      ensures !(ID <= query[j..])
    {
      assert query[j..][0] == before[j];
    }
    QueryRoundTrip(query, before, ID, e, v, [AMPERSAND] + after, size);
    assert query[0..][0] == QUESTION;
    QueryRoundTrip(query, [QUESTION], NEW_ID, e, v, [AMPERSAND] + after, size);
  }

  // "id" and "new_id"
  const ID: Text := [0x69, 0x64]
  const NEW_ID: Text := [0x6E, 0x65, 0x77, 0x5F, 0x69, 0x64]
}
