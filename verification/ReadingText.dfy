/** The text of the upload determines the readings in it: every printed field can be read back, and so can their number. */
module ReadingText {
  import opened ClientLog
  import opened Sequences
  import opened UploadBody

  // ----- keys and numbers in turn

  /** A prefix, then a key and a printed number in turn, as the calls of snprintf put them. */
  function LeftText(start: string, keys: seq<string>, numbers: seq<string>): string
    requires |keys| == |numbers|
  {
    if keys == [] then start
    else LeftText(start, keys[..|keys| - 1], numbers[..|keys| - 1]) + keys[|keys| - 1] + numbers[|keys| - 1]
  }

  lemma LeftNext(start: string, keys: seq<string>, numbers: seq<string>, key: string, number: string)
    requires |keys| == |numbers|
    ensures LeftText(start, keys + [key], numbers + [number]) == LeftText(start, keys, numbers) + key + number
  {
    assert (keys + [key])[..|keys|] == keys && (numbers + [number])[..|keys|] == numbers;
  }

  /** The same read from the front, up to a given rest. */
  function RightText(keys: seq<string>, numbers: seq<string>, rest: string): string
    requires |keys| == |numbers|
  {
    if keys == [] then rest else keys[0] + (numbers[0] + RightText(keys[1..], numbers[1..], rest))
  }

  lemma {:induction false} RightLast(keys: seq<string>, numbers: seq<string>, key: string, number: string, rest: string)
    requires |keys| == |numbers|
    ensures RightText(keys + [key], numbers + [number], rest) == RightText(keys, numbers, key + (number + rest))
  {
    if keys == [] {
      assert (keys + [key])[1..] == [] && (numbers + [number])[1..] == [];
    } else {
      assert (keys + [key])[1..] == keys[1..] + [key] && (numbers + [number])[1..] == numbers[1..] + [number];
      RightLast(keys[1..], numbers[1..], key, number, rest);
    }
  }

  lemma {:induction false} LeftIsRight(start: string, keys: seq<string>, numbers: seq<string>, rest: string)
    requires |keys| == |numbers|
    ensures LeftText(start, keys, numbers) + rest == start + RightText(keys, numbers, rest)
  {
    if keys != [] {
      var n := |keys| - 1;
      LeftIsRight(start, keys[..n], numbers[..n], keys[n] + (numbers[n] + rest));
      LastMoved(LeftText(start, keys[..n], numbers[..n]), keys[n], numbers[n], rest);
      RightLast(keys[..n], numbers[..n], keys[n], numbers[n], rest);
      assert keys[..n] + [keys[n]] == keys && numbers[..n] + [numbers[n]] == numbers;
    }
  }

  lemma LastMoved(init: string, key: string, number: string, rest: string)
    ensures init + key + number + rest == init + (key + (number + rest))
  {
    Regroup(init + key, number, rest);
    Regroup(init, key, number + rest);
  }

  predicate IsDigit(c: char) {
    '0' <= c <= '9'
  }

  /** What follows a number is not a digit. */
  predicate Stops(s: string) {
    s != "" && !IsDigit(s[0])
  }

  lemma DecimalEnds(a: nat, b: nat, s: string, t: string)
    requires Decimal(a) + s == Decimal(b) + t && Stops(s) && Stops(t)
    ensures a == b && s == t
  {
    var x, y := Decimal(a), Decimal(b);
    DecimalReadsBack(a);
    DecimalReadsBack(b);
    NotShorter(x, y, s, t);
    NotShorter(y, x, t, s);
    assert x == (x + s)[..|x|] && y == (y + t)[..|y|];
    assert s == (x + s)[|x|..] && t == (y + t)[|y|..];
  }

  lemma NotShorter(x: string, y: string, s: string, t: string)
    requires x + s == y + t && Stops(s) && forall c :: c in y ==> IsDigit(c)
    ensures |x| >= |y|
  {
    if |x| < |y| {
      Overlap(x, y, s, t);
    }
  }

  lemma Overlap(x: string, y: string, s: string, t: string)
    requires x + s == y + t && |x| < |y| && s != ""
    ensures s[0] == y[|x|] && s[0] in y
  {
    assert (x + s)[|x|] == s[0] && (y + t)[|x|] == y[|x|];
  }

  lemma DecimalStarts(n: nat)
    ensures Decimal(n) != "" && IsDigit(Decimal(n)[0])
  {
    DecimalReadsBack(n);
    assert Decimal(n)[0] in Decimal(n);
  }

  /** A number and what follows it can be told apart. */
  lemma SignedEnds(a: int, b: int, s: string, t: string)
    requires Signed(a) + s == Signed(b) + t && Stops(s) && Stops(t)
    ensures a == b && s == t
  {
    SignedStarts(a);
    SignedStarts(b);
    assert (Signed(a) + s)[0] == Signed(a)[0] && (Signed(b) + t)[0] == Signed(b)[0];
    if a < 0 {
      Regroup("-", Decimal(-a), s);
      Regroup("-", Decimal(-b), t);
      Stripped("-", Decimal(-a) + s, Decimal(-b) + t);
      DecimalEnds(-a, -b, s, t);
    } else {
      DecimalEnds(a, b, s, t);
    }
  }

  lemma SignedStarts(n: int)
    ensures Signed(n) != "" && (Signed(n)[0] == '-' <==> n < 0)
  {
    if n >= 0 {
      DecimalStarts(n);
    }
  }

  lemma Stripped(head: string, s: string, t: string)
    requires head + s == head + t
    ensures s == t
  {
    assert s == (head + s)[|head|..];
    assert t == (head + t)[|head|..];
  }

  lemma RightStops(keys: seq<string>, numbers: seq<string>, rest: string)
    requires |keys| == |numbers| && (forall k :: k in keys ==> Stops(k)) && Stops(rest)
    ensures Stops(RightText(keys, numbers, rest))
  {
    if keys != [] {
      assert keys[0] in keys;
    }
  }

  function Printed(values: seq<int>): (numbers: seq<string>)
    ensures |numbers| == |values| && forall i | 0 <= i < |values| :: numbers[i] == Signed(values[i])
  {
    seq(|values|, i requires 0 <= i < |values| => Signed(values[i]))
  }

  /** Keys that do not start with a digit separate the numbers: the text determines them all. */
  lemma {:induction false} NumbersRead(keys: seq<string>, v: seq<int>, w: seq<int>, rest: string)
    requires |keys| == |v| == |w| && (forall k :: k in keys ==> Stops(k)) && Stops(rest)
    requires RightText(keys, Printed(v), rest) == RightText(keys, Printed(w), rest)
    ensures v == w
  {
    if keys != [] {
      assert Printed(v)[1..] == Printed(v[1..]) && Printed(w)[1..] == Printed(w[1..]);
      FirstRead(keys[0], v[0], w[0], RightText(keys[1..], Printed(v[1..]), rest), RightText(keys[1..], Printed(w[1..]), rest),
                keys[1..], Printed(v[1..]), Printed(w[1..]), rest);
      NumbersRead(keys[1..], v[1..], w[1..], rest);
      assert v == [v[0]] + v[1..] && w == [w[0]] + w[1..];
    }
  }

  lemma FirstRead(key: string, a: int, b: int, s: string, t: string,
                  keys: seq<string>, x: seq<string>, y: seq<string>, rest: string)
    requires |keys| == |x| == |y| && (forall k :: k in keys ==> Stops(k)) && Stops(rest)
    requires s == RightText(keys, x, rest) && t == RightText(keys, y, rest)
    requires key + (Signed(a) + s) == key + (Signed(b) + t)
    ensures a == b && s == t
  {
    RightStops(keys, x, rest);
    RightStops(keys, y, rest);
    Stripped(key, Signed(a) + s, Signed(b) + t);
    SignedEnds(a, b, s, t);
  }

  // ----- one reading

  const KEYS: seq<string> := ["\"ts\":", ",\"up\":", ",\"t\":", ".", ",\"h\":"]
  const AIR_KEYS: seq<string> := [",\"c\":", ",\"v\":", ",\"a\":"]

  function Keys(m: Mode): seq<string> {
    if m.basic then KEYS else KEYS + AIR_KEYS
  }

  function CommonValues(r: ClientRecord): seq<int> {
    [r.timestamp, r.uptime, Whole(r.temperature), Tenth(r.temperature), Truncate(r.humidity)]
  }

  /** The fields of a reading that are printed, as the numbers that are printed. */
  function Values(m: Mode, r: ClientRecord): (v: seq<int>)
    ensures |v| == |Keys(m)|
  {
    if m.basic then CommonValues(r) else CommonValues(r) + [r.eco2, r.tvoc, r.aqi]
  }

  lemma FiveText(start: string, a: string, b: string, c: string, d: string, e: string,
                 v: string, w: string, x: string, y: string, z: string)
    ensures LeftText(start, [a, b, c, d, e], [v, w, x, y, z]) == start + a + v + b + w + c + x + d + y + e + z
  {
    LeftNext(start, [], [], a, v);
    assert [] + [a] == [a] && [] + [v] == [v];
    LeftNext(start, [a], [v], b, w);
    assert [a] + [b] == [a, b] && [v] + [w] == [v, w];
    LeftNext(start, [a, b], [v, w], c, x);
    assert [a, b] + [c] == [a, b, c] && [v, w] + [x] == [v, w, x];
    LeftNext(start, [a, b, c], [v, w, x], d, y);
    assert [a, b, c] + [d] == [a, b, c, d] && [v, w, x] + [y] == [v, w, x, y];
    LeftNext(start, [a, b, c, d], [v, w, x, y], e, z);
    assert [a, b, c, d] + [e] == [a, b, c, d, e] && [v, w, x, y] + [z] == [v, w, x, y, z];
  }

  lemma CommonText(r: ClientRecord)
    ensures Common(r) == LeftText("{", KEYS, Printed(CommonValues(r)))
  {
    var p := Printed(CommonValues(r));
    FiveText("{", KEYS[0], KEYS[1], KEYS[2], KEYS[3], KEYS[4], p[0], p[1], p[2], p[3], p[4]);
    assert p == [p[0], p[1], p[2], p[3], p[4]];
    assert "{" + KEYS[0] == "{\"ts\":";
  }

  /** A reading is its keys and printed fields in turn, between braces. */
  lemma ReadingIsFields(m: Mode, r: ClientRecord)
    requires Prints(m)
    ensures Reading(m, r) == "{" + RightText(Keys(m), Printed(Values(m, r)), "}")
  {
    var k, v := KEYS, CommonValues(r);
    CommonText(r);
    if m.basic {
      LeftIsRight("{", k, Printed(v), "}");
    } else {
      AirText(r);
      LeftIsRight("{", k + AIR_KEYS, Printed(v) + Printed([r.eco2, r.tvoc, r.aqi]), "}");
      assert Printed(v) + Printed([r.eco2, r.tvoc, r.aqi]) == Printed(Values(m, r));
    }
  }

  lemma AirText(r: ClientRecord)
    ensures Common(r) + AirQuality(r) == LeftText("{", KEYS + AIR_KEYS, Printed(CommonValues(r)) + Printed([r.eco2, r.tvoc, r.aqi]))
  {
    var k, p, q := KEYS, Printed(CommonValues(r)), Printed([r.eco2, r.tvoc, r.aqi]);
    CommonText(r);
    ThreeText("{", k, p, AIR_KEYS[0], AIR_KEYS[1], AIR_KEYS[2], q[0], q[1], q[2]);
    assert q == [q[0], q[1], q[2]];
  }

  lemma ThreeText(start: string, keys: seq<string>, numbers: seq<string>, a: string, b: string, c: string, v: string, w: string, x: string)
    requires |keys| == |numbers|
    ensures LeftText(start, keys + [a, b, c], numbers + [v, w, x]) == LeftText(start, keys, numbers) + (a + v + b + w + c + x)
  {
    LeftNext(start, keys, numbers, a, v);
    LeftNext(start, keys + [a], numbers + [v], b, w);
    LeftNext(start, keys + [a] + [b], numbers + [v] + [w], c, x);
    assert keys + [a, b, c] == keys + [a] + [b] + [c] && numbers + [v, w, x] == numbers + [v] + [w] + [x];
    SixMoved(LeftText(start, keys, numbers), a, v, b, w, c, x);
  }

  lemma SixMoved(l: string, a: string, b: string, c: string, d: string, e: string, f: string)
    ensures l + a + b + c + d + e + f == l + (a + b + c + d + e + f)
  {
    Regroup(l, a, b);
    Regroup(l, a + b, c);
    Regroup(l, a + b + c, d);
    Regroup(l, a + b + c + d, e);
    Regroup(l, a + b + c + d + e, f);
  }

  lemma KeysStop(m: Mode)
    ensures (forall k :: k in Keys(m) ==> Stops(k) && '{' !in k) && Stops("}")
  {}

  /** The text of a reading determines every printed field. */
  lemma ReadingDetermines(m: Mode, r: ClientRecord, q: ClientRecord)
    requires Prints(m) && Reading(m, r) == Reading(m, q)
    ensures Values(m, r) == Values(m, q)
  {
    ReadingIsFields(m, r);
    ReadingIsFields(m, q);
    KeysStop(m);
    FieldsDetermine("{", Keys(m), Values(m, r), Values(m, q), "}");
  }

  lemma FieldsDetermine(start: string, keys: seq<string>, v: seq<int>, w: seq<int>, rest: string)
    requires |keys| == |v| == |w| && (forall k :: k in keys ==> Stops(k)) && Stops(rest)
    requires start + RightText(keys, Printed(v), rest) == start + RightText(keys, Printed(w), rest)
    ensures v == w
  {
    Stripped(start, RightText(keys, Printed(v), rest), RightText(keys, Printed(w), rest));
    NumbersRead(keys, v, w, rest);
  }

  // ----- all readings

  lemma {:induction false} RightFree(keys: seq<string>, numbers: seq<string>, rest: string, c: char)
    requires |keys| == |numbers| && c !in rest
    requires (forall k :: k in keys ==> c !in k) && (forall n :: n in numbers ==> c !in n)
    ensures c !in RightText(keys, numbers, rest)
  {
    if keys != [] {
      assert keys[0] in keys && numbers[0] in numbers;
      RightFree(keys[1..], numbers[1..], rest, c);
    }
  }

  lemma SignedFree(n: int)
    ensures '{' !in Signed(n)
  {
    DecimalReadsBack(if n < 0 then -n else n);
  }

  /** A reading opens with the only opening brace in it. */
  lemma OneBrace(m: Mode, r: ClientRecord)
    requires Prints(m)
    ensures var t := Reading(m, r); t != "" && t[0] == '{' && '{' !in t[1..]
  {
    ReadingIsFields(m, r);
    KeysStop(m);
    forall n | n in Printed(Values(m, r)) ensures '{' !in n {
      var i :| 0 <= i < |Values(m, r)| && Printed(Values(m, r))[i] == n;
      SignedFree(Values(m, r)[i]);
    }
    RightFree(Keys(m), Printed(Values(m, r)), "}", '{');
    assert Reading(m, r)[1..] == RightText(Keys(m), Printed(Values(m, r)), "}");
  }

  /** So the last reading starts at the last opening brace of the text. */
  lemma LastSplits(x: string, y: string, a: string, b: string)
    requires x + a == y + b && a != "" && b != "" && a[0] == '{' == b[0] && '{' !in a[1..] && '{' !in b[1..]
    ensures x == y && a == b
  {
    NotLonger(x, y, a, b);
    NotLonger(y, x, b, a);
    assert x == (x + a)[..|x|] && y == (y + b)[..|y|];
    assert a == (x + a)[|x|..] && b == (y + b)[|y|..];
  }

  lemma NotLonger(x: string, y: string, a: string, b: string)
    requires x + a == y + b && a != "" && b != "" && b[0] == '{' && '{' !in a[1..]
    ensures |y| <= |x|
  {
    if |y| > |x| {
      BraceInside(x, y, a, b);
    }
  }

  lemma BraceInside(x: string, y: string, a: string, b: string)
    requires x + a == y + b && b != "" && |y| > |x|
    ensures b[0] in a[1..]
  {
    assert (y + b)[|y|] == b[0] && (x + a)[|y|] == a[|y| - |x|];
    assert a[1..][|y| - |x| - 1] == b[0];
  }

  /** What stands before the last reading. */
  function Before(m: Mode, rs: seq<ClientRecord>): string
    requires rs != []
  {
    Readings(m, rs[..|rs| - 1]) + if |rs| > 1 then "," else ""
  }

  lemma LastApart(m: Mode, rs: seq<ClientRecord>)
    requires rs != []
    ensures Readings(m, rs) == Before(m, rs) + Reading(m, rs[|rs| - 1])
  {
    Regroup(Readings(m, rs[..|rs| - 1]), if |rs| > 1 then "," else "", Reading(m, rs[|rs| - 1]));
  }

  /** Two lists with the same text end in the same reading, and agree in text before it. */
  lemma LastAgrees(m: Mode, rs: seq<ClientRecord>, qs: seq<ClientRecord>)
    requires Prints(m) && rs != [] && qs != [] && Readings(m, rs) == Readings(m, qs)
    ensures Reading(m, rs[|rs| - 1]) == Reading(m, qs[|qs| - 1]) && Before(m, rs) == Before(m, qs)
  {
    var a, b := rs[|rs| - 1], qs[|qs| - 1];
    LastApart(m, rs);
    LastApart(m, qs);
    OneBrace(m, a);
    OneBrace(m, b);
    LastSplits(Before(m, rs), Before(m, qs), Reading(m, a), Reading(m, b));
  }

  lemma FrontsHaveOneText(m: Mode, rs: seq<ClientRecord>, qs: seq<ClientRecord>)
    requires rs != [] && qs != [] && Before(m, rs) == Before(m, qs)
    ensures (|rs| > 1 <==> |qs| > 1) && Readings(m, rs[..|rs| - 1]) == Readings(m, qs[..|qs| - 1])
  {
    FrontsAgree(Readings(m, rs[..|rs| - 1]), Readings(m, qs[..|qs| - 1]), |rs| > 1, |qs| > 1);
  }

  predicate SameFields(m: Mode, rs: seq<ClientRecord>, qs: seq<ClientRecord>) {
    |rs| == |qs| && forall i | 0 <= i < |rs| :: Values(m, rs[i]) == Values(m, qs[i])
  }

  lemma SameFieldsNext(m: Mode, rs: seq<ClientRecord>, qs: seq<ClientRecord>)
    requires rs != [] && qs != [] && Values(m, rs[|rs| - 1]) == Values(m, qs[|qs| - 1])
    requires SameFields(m, rs[..|rs| - 1], qs[..|qs| - 1])
    ensures SameFields(m, rs, qs)
  {
    forall i | 0 <= i < |rs| ensures Values(m, rs[i]) == Values(m, qs[i]) {
      if i < |rs| - 1 {
        assert rs[..|rs| - 1][i] == rs[i] && qs[..|qs| - 1][i] == qs[i];
      }
    }
  }

  /** Two bodies with the same readings text carry the same readings, as far as they are printed. */
  lemma {:induction false} ReadingsDetermine(m: Mode, rs: seq<ClientRecord>, qs: seq<ClientRecord>)
    requires Prints(m) && Readings(m, rs) == Readings(m, qs)
    ensures SameFields(m, rs, qs)
  {
    NothingPrinted(m, rs);
    NothingPrinted(m, qs);
    if rs != [] {
      LastAgrees(m, rs, qs);
      FrontsHaveOneText(m, rs, qs);
      ReadingDetermines(m, rs[|rs| - 1], qs[|qs| - 1]);
      ReadingsDetermine(m, rs[..|rs| - 1], qs[..|qs| - 1]);
      SameFieldsNext(m, rs, qs);
    }
  }

  lemma NothingPrinted(m: Mode, rs: seq<ClientRecord>)
    requires Prints(m)
    ensures Readings(m, rs) == "" <==> rs == []
  {
    if rs != [] {
      LastApart(m, rs);
      OneBrace(m, rs[|rs| - 1]);
    }
  }

  lemma FrontsAgree(x: string, y: string, p: bool, q: bool)
    requires x + (if p then "," else "") == y + if q then "," else ""
    requires (!p ==> x == "") && (!q ==> y == "")
    ensures p == q && x == y
  {
    if p && q {
      assert x == (x + ",")[..|x|] && y == (y + ",")[..|y|];
    }
  }

  /** And so do two whole bodies of one client. */
  lemma BodyDetermines(m: Mode, id: string, name: string, rs: seq<ClientRecord>, qs: seq<ClientRecord>)
    requires Prints(m) && Body(m, id, name, rs) == Body(m, id, name, qs)
    ensures SameFields(m, rs, qs)
  {
    Unwrapped(Header(id, name), Readings(m, rs), Readings(m, qs), "]}");
    ReadingsDetermine(m, rs, qs);
  }

  lemma Unwrapped(head: string, x: string, y: string, tail: string)
    requires head + x + tail == head + y + tail
    ensures x == y
  {
    assert head + x == (head + x + tail)[..|head + x|] && head + y == (head + y + tail)[..|head + y|];
    Stripped(head, x, y);
  }
}
