/** Reading an upload body by its keys, as its receiver does: each key of each reading is followed by that reading's field. */
module FieldText {
  import opened ClientLog
  import opened ReadingText
  import opened Sequences
  import opened UploadBody

  // ----- looking up a key and reading the number behind it

  /** What follows the first occurrence of a key. */
  function After(text: string, key: string): string {
    if key <= text then text[|key|..] else if text == "" then "" else After(text[1..], key)
  }

  function DigitsOf(s: string): string {
    if s == "" || !IsDigit(s[0]) then "" else [s[0]] + DigitsOf(s[1..])
  }

  /** The number a text starts with, as atoi reads it. */
  function ReadInt(s: string): int {
    if s != "" && s[0] == '-' then -Number(DigitsOf(s[1..])) else Number(DigitsOf(s))
  }

  /** A key of an object in quotes, with its colon. */
  function Named(name: string): string {
    "\"" + name + "\":"
  }

  lemma {:induction false} DigitsThenStop(d: string, rest: string)
    requires (forall c :: c in d ==> IsDigit(c)) && Stops(rest)
    ensures DigitsOf(d + rest) == d
  {
    if d == "" {
      assert d + rest == rest;
    } else {
      assert (d + rest)[1..] == d[1..] + rest && (d + rest)[0] == d[0] && d[0] in d;
      DigitsThenStop(d[1..], rest);
    }
  }

  lemma NumberRead(v: int, rest: string)
    requires Stops(rest)
    ensures ReadInt(Signed(v) + rest) == v
  {
    var n: nat := if v < 0 then -v else v;
    DecimalReadsBack(n);
    DecimalStarts(n);
    DigitsThenStop(Decimal(n), rest);
    if v < 0 {
      Regroup("-", Decimal(n), rest);
      assert ("-" + (Decimal(n) + rest))[1..] == Decimal(n) + rest;
    } else {
      assert (Decimal(n) + rest)[0] == Decimal(n)[0];
    }
  }

  /** The key starts nowhere in p when the rest follows. */
  ghost predicate NotWithin(p: string, rest: string, key: string) {
    forall j | 0 <= j < |p| :: !(key <= (p + rest)[j..])
  }

  lemma {:induction false} AfterSkips(p: string, rest: string, key: string)
    requires NotWithin(p, rest, key)
    ensures After(p + rest, key) == After(rest, key)
  {
    if p == "" {
      assert p + rest == rest;
    } else {
      var text := p + rest;
      assert text[0..] == text;
      assert text[1..] == p[1..] + rest;
      forall j | 0 <= j < |p[1..]| ensures !(key <= (p[1..] + rest)[j..]) {
        assert (p[1..] + rest)[j..] == text[j + 1..];
      }
      AfterSkips(p[1..], rest, key);
    }
  }

  lemma AfterKey(key: string, rest: string)
    ensures After(key + rest, key) == rest
  {
    assert (key + rest)[|key|..] == rest;
  }

  /** A key that starts with a character not in p starts nowhere in it. */
  lemma CharSkipped(p: string, rest: string, key: string)
    requires key != "" && key[0] !in p
    ensures NotWithin(p, rest, key)
  {
    forall j | 0 <= j < |p| ensures !(key <= (p + rest)[j..]) {
      assert (p + rest)[j..][0] == p[j] && p[j] in p;
    }
  }

  predicate Clean(name: string) {
    name != "" && '"' !in name && ':' !in name
  }

  /** A quoted text is not the start of this key if it is another name, or has something else than a colon behind it: there
      they differ. */
  lemma OtherName(n: string, m: string, tail: string) returns (i: nat)
    requires '"' !in n && Clean(m) && tail != "" && (n != m || tail[0] != ':')
    ensures i < |Named(m)| && i < |"\"" + n + "\"" + tail| && ("\"" + n + "\"" + tail)[i] != Named(m)[i]
  {
    if k :| 0 <= k < |n| && k < |m| && n[k] != m[k] {
      i := k + 1;
    } else if |m| < |n| {
      i := |m| + 1;
      assert n[|m|] in n;
    } else if |n| < |m| {
      i := |n| + 1;
      assert m[|n|] in m;
    } else {
      i := |n| + 2;
      assert n == m;
    }
  }

  lemma NotStart(key: string, text: string, i: nat)
    requires i < |key| && i < |text| && text[i] != key[i]
    ensures !(key <= text)
  {}

  lemma NameSkipped(n: string, m: string, rest: string)
    requires Clean(n) && Clean(m) && n != m
    ensures NotWithin(Named(n), rest, Named(m))
  {
    var text := Named(n) + rest;
    assert text == "\"" + n + "\"" + (":" + rest);
    var i := OtherName(n, m, ":" + rest);
    NotStart(Named(m), text, i);
    forall j | 0 <= j < |Named(n)| ensures !(Named(m) <= text[j..]) {
      if j == 0 {
        assert text[0..] == text;
      } else if j <= |n| {
        assert text[j..][0] == n[j - 1] && n[j - 1] in n;
      } else if j == |n| + 1 {
        assert text[j..][1] == ':' && Named(m)[1] == m[0] && m[0] in m;
      } else {
        assert text[j..][0] == ':';
      }
    }
  }

  // ----- the fields of one reading

  const NAMES: seq<string> := ["ts", "up", "t", "", "h"]
  const AIR_NAMES: seq<string> := ["c", "v", "a"]

  function NamesOf(m: Mode): (names: seq<string>)
    ensures |names| == |Keys(m)|
  {
    if m.basic then NAMES else NAMES + AIR_NAMES
  }

  /** The printed key is that name in quotes, with a comma before it or not; or no name, and no quotes. */
  predicate IsKey(key: string, name: string) {
    if name == "" then '"' !in key else Clean(name) && (key == Named(name) || key == "," + Named(name))
  }

  lemma KeysAreNames(m: Mode)
    ensures forall k | 0 <= k < |Keys(m)| :: IsKey(Keys(m)[k], NamesOf(m)[k])
  {}

  lemma KeySkipped(key: string, name: string, m: string, rest: string)
    requires IsKey(key, name) && Clean(m) && name != m
    ensures After(key + rest, Named(m)) == After(rest, Named(m))
  {
    if name == "" {
      CharSkipped(key, rest, Named(m));
      AfterSkips(key, rest, Named(m));
    } else {
      NameSkipped(name, m, rest);
      AfterSkips(Named(name), rest, Named(m));
      CommaSkipped(key, name, m, rest);
    }
  }

  lemma CommaSkipped(key: string, name: string, m: string, rest: string)
    requires name != "" && IsKey(key, name)
    ensures After(key + rest, Named(m)) == After(Named(name) + rest, Named(m))
  {
    if key != Named(name) {
      Regroup(",", Named(name), rest);
      CharSkipped(",", Named(name) + rest, Named(m));
      AfterSkips(",", Named(name) + rest, Named(m));
    }
  }

  lemma QuoteFree(v: int)
    ensures '"' !in Signed(v)
  {
    DecimalReadsBack(if v < 0 then -v else v);
  }

  /** The key's own field is found behind it, whatever comes after. */
  lemma {:induction false} FieldFound(keys: seq<string>, names: seq<string>, values: seq<int>, rest: string, i: nat)
    requires |keys| == |names| == |values| && i < |keys| && Clean(names[i])
    requires forall k | 0 <= k < |keys| :: IsKey(keys[k], names[k])
    requires forall k | 0 <= k < i :: names[k] != names[i]
    ensures After(RightText(keys, Printed(values), rest), Named(names[i])) ==
            Signed(values[i]) + RightText(keys[i + 1..], Printed(values[i + 1..]), rest)
  {
    var more := RightText(keys[1..], Printed(values[1..]), rest);
    assert Printed(values)[1..] == Printed(values[1..]);
    assert RightText(keys, Printed(values), rest) == keys[0] + (Signed(values[0]) + more);
    if i == 0 {
      CommaSkipped(keys[0], names[0], names[0], Signed(values[0]) + more);
      AfterKey(Named(names[0]), Signed(values[0]) + more);
    } else {
      KeySkipped(keys[0], names[0], names[i], Signed(values[0]) + more);
      QuoteFree(values[0]);
      CharSkipped(Signed(values[0]), more, Named(names[i]));
      AfterSkips(Signed(values[0]), more, Named(names[i]));
      FieldFound(keys[1..], names[1..], values[1..], rest, i - 1);
      assert keys[1..][i..] == keys[i + 1..] && values[1..][i..] == values[i + 1..];
    }
  }

  /** The text of a reading behind its brace, up to anything that follows. */
  function FieldsThen(m: Mode, r: ClientRecord, more: string): string {
    RightText(Keys(m), Printed(Values(m, r)), "}" + more)
  }

  lemma FieldRead(m: Mode, r: ClientRecord, more: string, i: nat)
    requires i < |Keys(m)| && NamesOf(m)[i] != ""
    ensures ReadInt(After(FieldsThen(m, r, more), Named(NamesOf(m)[i]))) == Values(m, r)[i]
  {
    var keys, values := Keys(m), Values(m, r);
    KeysAreNames(m);
    NamesDiffer(m, i);
    FieldFound(keys, NamesOf(m), values, "}" + more, i);
    KeysStop(m);
    RightStops(keys[i + 1..], Printed(values[i + 1..]), "}" + more);
    NumberRead(values[i], RightText(keys[i + 1..], Printed(values[i + 1..]), "}" + more));
  }

  lemma NamesDiffer(m: Mode, i: nat)
    requires i < |NamesOf(m)|
    ensures forall k | 0 <= k < i :: NamesOf(m)[k] != NamesOf(m)[i]
  {}

  /** The tenths stand behind the point that follows the whole degrees. */
  lemma TenthRead(m: Mode, r: ClientRecord, more: string)
    ensures Field(After(FieldsThen(m, r, more), "\"t\":"), ".") == Tenth(r.temperature)
  {
    var keys, values := Keys(m), Values(m, r);
    assert NamesOf(m)[2] == "t" && Named("t") == "\"t\":";
    KeysAreNames(m);
    NamesDiffer(m, 2);
    FieldFound(keys, NamesOf(m), values, "}" + more, 2);
    var later := RightText(keys[4..], Printed(values[4..]), "}" + more);
    assert keys[3..][1..] == keys[4..] && Printed(values[3..])[1..] == Printed(values[4..]);
    var point := "." + (Signed(values[3]) + later);
    assert RightText(keys[3..], Printed(values[3..]), "}" + more) == point;
    PointFree(values[2]);
    CharSkipped(Signed(values[2]), point, ".");
    AfterSkips(Signed(values[2]), point, ".");
    AfterKey(".", Signed(values[3]) + later);
    KeysStop(m);
    RightStops(keys[4..], Printed(values[4..]), "}" + more);
    NumberRead(values[3], later);
  }

  lemma PointFree(v: int)
    ensures '.' !in Signed(v)
  {
    DecimalReadsBack(if v < 0 then -v else v);
  }

  /** The number behind a key. */
  function Field(o: string, key: string): int {
    ReadInt(After(o, key))
  }

  lemma FieldUnder(m: Mode, r: ClientRecord, more: string, i: nat, name: string, key: string)
    requires i < |Keys(m)| && NamesOf(m)[i] == name != "" && key == Named(name)
    ensures Field(FieldsThen(m, r, more), key) == Values(m, r)[i]
  {
    FieldRead(m, r, more, i);
  }

  /** The keys of every mode say what the fields are. */
  ghost predicate TellsCommon(r: ClientRecord, o: string) {
    && Field(o, "\"ts\":") == r.timestamp
    && Field(o, "\"up\":") == r.uptime
    && Field(o, "\"t\":") == Whole(r.temperature)
    && Field(After(o, "\"t\":"), ".") == Tenth(r.temperature)
    && Field(o, "\"h\":") == Truncate(r.humidity)
  }

  /** And those of the air quality. */
  ghost predicate TellsAir(r: ClientRecord, o: string) {
    Field(o, "\"c\":") == r.eco2 && Field(o, "\"v\":") == r.tvoc && Field(o, "\"a\":") == r.aqi
  }

  ghost predicate Tells(m: Mode, r: ClientRecord, o: string) {
    TellsCommon(r, o) && (!m.basic ==> TellsAir(r, o))
  }

  lemma CommonTold(m: Mode, r: ClientRecord, more: string)
    ensures TellsCommon(r, FieldsThen(m, r, more))
  {
    FieldUnder(m, r, more, 0, "ts", "\"ts\":");
    FieldUnder(m, r, more, 1, "up", "\"up\":");
    FieldUnder(m, r, more, 2, "t", "\"t\":");
    TenthRead(m, r, more);
    FieldUnder(m, r, more, 4, "h", "\"h\":");
  }

  lemma AirTold(m: Mode, r: ClientRecord, more: string)
    requires !m.basic
    ensures TellsAir(r, FieldsThen(m, r, more))
  {
    FieldUnder(m, r, more, 5, "c", "\"c\":");
    FieldUnder(m, r, more, 6, "v", "\"v\":");
    FieldUnder(m, r, more, 7, "a", "\"a\":");
  }

  lemma FieldsTold(m: Mode, r: ClientRecord, more: string)
    ensures Tells(m, r, FieldsThen(m, r, more))
  {
    CommonTold(m, r, more);
    if !m.basic {
      AirTold(m, r, more);
    }
  }

  // ----- the readings of a body

  function Braces(s: string): nat {
    if s == "" then 0 else Braces(s[..|s| - 1]) + if s[|s| - 1] == '{' then 1 else 0
  }

  /** What follows the k-th opening brace. */
  function Object(text: string, k: nat): string {
    if k == 0 then text else After(Object(text, k - 1), "{")
  }

  lemma {:induction false} BracesAdd(s: string, t: string)
    ensures Braces(s + t) == Braces(s) + Braces(t)
  {
    if t == "" {
      assert s + t == s;
    } else {
      assert (s + t)[..|s + t| - 1] == s + t[..|t| - 1];
      BracesAdd(s, t[..|t| - 1]);
    }
  }

  lemma {:induction false} NoBraces(s: string)
    requires '{' !in s
    ensures Braces(s) == 0
  {
    if s != "" {
      NoBraces(s[..|s| - 1]);
    }
  }

  /** Behind one more brace than p has stands what follows it. */
  lemma {:induction false} ObjectBehind(p: string, rest: string)
    ensures Object(p + ("{" + rest), Braces(p) + 1) == rest
    decreases |p|
  {
    var text := p + ("{" + rest);
    var i := LastBrace(p);
    if i < 0 {
      NoBraces(p);
      CharSkipped(p, "{" + rest, "{");
      AfterSkips(p, "{" + rest, "{");
      AfterKey("{", rest);
      assert Object(text, 1) == After(Object(text, 0), "{");
    } else {
      var q, r := p[..i], p[i + 1..];
      assert p == q + ("{" + r);
      assert text == q + ("{" + (r + ("{" + rest)));
      BracesAdd(q, "{" + r);
      BracesAdd("{", r);
      NoBraces(r);
      assert Braces("{") == 1;
      ObjectBehind(q, r + ("{" + rest));
      CharSkipped(r, "{" + rest, "{");
      AfterSkips(r, "{" + rest, "{");
      AfterKey("{", rest);
    }
  }

  lemma {:induction false} LastBrace(p: string) returns (i: int)
    ensures -1 <= i < |p|
    ensures if i < 0 then '{' !in p else p[i] == '{' && '{' !in p[i + 1..]
  {
    i := -1;
    if p != "" {
      if p[|p| - 1] == '{' {
        i := |p| - 1;
      } else {
        i := LastBrace(p[..|p| - 1]);
        assert p == p[..|p| - 1] + [p[|p| - 1]];
        if i >= 0 {
          assert p[i + 1..] == p[..|p| - 1][i + 1..] + [p[|p| - 1]];
        }
      }
    }
  }

  lemma ReadingBraces(m: Mode, r: ClientRecord)
    requires Prints(m)
    ensures Braces(Reading(m, r)) == 1 && Reading(m, r) == "{" + Reading(m, r)[1..]
  {
    OneBrace(m, r);
    var t := Reading(m, r);
    assert t == "{" + t[1..];
    BracesAdd("{", t[1..]);
    NoBraces(t[1..]);
    assert Braces("{") == 1;
  }

  lemma {:induction false} ReadingsBraces(m: Mode, rs: seq<ClientRecord>)
    requires Prints(m)
    ensures Braces(Readings(m, rs)) == |rs|
  {
    if rs != [] {
      var n := |rs| - 1;
      ReadingsBraces(m, rs[..n]);
      BeforeBraces(m, rs);
      LastApart(m, rs);
      ReadingBraces(m, rs[n]);
      BracesAdd(Before(m, rs), Reading(m, rs[n]));
    }
  }

  lemma BeforeBraces(m: Mode, rs: seq<ClientRecord>)
    requires rs != []
    ensures Braces(Before(m, rs)) == Braces(Readings(m, rs[..|rs| - 1]))
  {
    var comma := if |rs| > 1 then "," else "";
    BracesAdd(Readings(m, rs[..|rs| - 1]), comma);
    NoBraces(comma);
  }

  lemma LastReading(m: Mode, rs: seq<ClientRecord>)
    requires rs != []
    ensures Readings(m, rs) == Before(m, rs[..|rs|]) + (Reading(m, rs[|rs| - 1]) + "")
  {
    assert rs[..|rs|] == rs;
    LastApart(m, rs);
    assert Reading(m, rs[|rs| - 1]) + "" == Reading(m, rs[|rs| - 1]);
  }

  lemma EarlierReading(m: Mode, rs: seq<ClientRecord>, k: nat, t: string) returns (tail: string)
    requires k < |rs| - 1 && Readings(m, rs[..|rs| - 1]) == Before(m, rs[..k + 1]) + (Reading(m, rs[k]) + t)
    ensures Readings(m, rs) == Before(m, rs[..k + 1]) + (Reading(m, rs[k]) + tail)
  {
    var piece := Piece(Reading(m, rs[|rs| - 1]), |rs| > 1);
    tail := t + piece;
    PieceBehind(Readings(m, rs[..|rs| - 1]), Before(m, rs[..k + 1]), Reading(m, rs[k]), t, piece);
  }

  /** The k-th reading stands behind the ones before it. */
  lemma {:induction false} ReadingsFrom(m: Mode, rs: seq<ClientRecord>, k: nat) returns (tail: string)
    requires k < |rs|
    ensures Readings(m, rs) == Before(m, rs[..k + 1]) + (Reading(m, rs[k]) + tail)
    decreases |rs|
  {
    if k == |rs| - 1 {
      LastReading(m, rs);
      tail := "";
    } else {
      var init := rs[..|rs| - 1];
      var t := ReadingsFrom(m, init, k);
      assert init[..k + 1] == rs[..k + 1] && init[k] == rs[k];
      tail := EarlierReading(m, rs, k, t);
    }
  }

  lemma PieceBehind(all: string, before: string, reading: string, tail: string, piece: string)
    requires all == before + (reading + tail)
    ensures all + piece == before + (reading + (tail + piece))
  {
    Regroup(before, reading + tail, piece);
    Regroup(reading, tail, piece);
  }

  lemma ReadingThen(m: Mode, r: ClientRecord, more: string)
    requires Prints(m)
    ensures Reading(m, r) + more == "{" + FieldsThen(m, r, more)
  {
    ReadingIsFields(m, r);
    Regroup("{", RightText(Keys(m), Printed(Values(m, r)), "}"), more);
    RightMore(Keys(m), Printed(Values(m, r)), "}", more);
  }

  lemma {:induction false} RightMore(keys: seq<string>, numbers: seq<string>, rest: string, more: string)
    requires |keys| == |numbers|
    ensures RightText(keys, numbers, rest) + more == RightText(keys, numbers, rest + more)
  {
    if keys != [] {
      var right := RightText(keys[1..], numbers[1..], rest);
      RightMore(keys[1..], numbers[1..], rest, more);
      Regroup(keys[0], numbers[0] + right, more);
      Regroup(numbers[0], right, more);
    }
  }

  /** A body as its receiver finds it: one object for each record, and in the k-th one, behind the brace of the body itself,
      each key is followed by that field of the k-th record. */
  lemma BodyTells(m: Mode, id: string, name: string, rs: seq<ClientRecord>, k: nat)
    requires Prints(m) && '{' !in id && '{' !in name && k < |rs|
    ensures Tells(m, rs[k], Object(Body(m, id, name, rs), k + 2))
  {
    var head := Header(id, name);
    var tail := ReadingsFrom(m, rs, k);
    var more := tail + "]}";
    var front := head + Before(m, rs[..k + 1]);
    BodySplits(head, Before(m, rs[..k + 1]), Reading(m, rs[k]), tail, Readings(m, rs), "]}");
    ReadingThen(m, rs[k], more);
    FrontBraces(m, id, name, rs, k);
    ObjectBehind(front, FieldsThen(m, rs[k], more));
    FieldsTold(m, rs[k], more);
  }

  lemma BodySplits(head: string, before: string, reading: string, tail: string, all: string, end: string)
    requires all == before + (reading + tail)
    ensures head + all + end == (head + before) + (reading + (tail + end))
  {
    Regroup(head, all, end);
    Regroup(before, reading + tail, end);
    Regroup(reading, tail, end);
    Regroup(head, before, reading + (tail + end));
  }

  lemma FrontBraces(m: Mode, id: string, name: string, rs: seq<ClientRecord>, k: nat)
    requires Prints(m) && '{' !in id && '{' !in name && k < |rs|
    ensures Braces(Header(id, name) + Before(m, rs[..k + 1])) == k + 1
  {
    HeaderBraces(id, name);
    assert rs[..k + 1][..k] == rs[..k];
    BeforeBraces(m, rs[..k + 1]);
    ReadingsBraces(m, rs[..k]);
    BracesAdd(Header(id, name), Before(m, rs[..k + 1]));
  }

  lemma HeaderBraces(id: string, name: string)
    requires '{' !in id && '{' !in name
    ensures Braces(Header(id, name)) == 1
  {
    var rest := Header(id, name)[1..];
    assert Header(id, name) == "{" + rest;
    BracesAdd("{", rest);
    NoBraces(rest);
    assert Braces("{") == 1;
  }

  /** And there are no more objects than that. */
  lemma BodyCounts(m: Mode, id: string, name: string, rs: seq<ClientRecord>)
    requires Prints(m) && '{' !in id && '{' !in name
    ensures Braces(Body(m, id, name, rs)) == |rs| + 1
  {
    HeaderBraces(id, name);
    ReadingsBraces(m, rs);
    BracesAdd(Header(id, name), Readings(m, rs));
    BracesAdd(Header(id, name) + Readings(m, rs), "]}");
    NoBraces("]}");
  }

  // ----- the client's id and name

  /** What a quoted text holds, from behind its opening quote. */
  function Quoted(s: string): string {
    if s == "" || s[0] == '"' then "" else [s[0]] + Quoted(s[1..])
  }

  lemma {:induction false} QuotedEnds(s: string, rest: string)
    requires '"' !in s
    ensures Quoted(s + ("\"" + rest)) == s
  {
    if s == "" {
      assert s + ("\"" + rest) == "\"" + rest;
    } else {
      assert (s + ("\"" + rest))[1..] == s[1..] + ("\"" + rest);
      QuotedEnds(s[1..], rest);
    }
  }

  /** The body in the order its receiver meets the pieces. */
  lemma HeaderInPieces(id: string, name: string, rest: string)
    ensures Header(id, name) + rest ==
            "{" + (Named("id") + ("\"" + (id + ("\"" + ("," + (Named("name") + ("\"" + (name + ("\"" + (",\"readings\":[" + rest))))))))))
  {
    var h0, h1, h2 := "{\"id\":\"", "\",\"name\":\"", "\",\"readings\":[";
    FiveThen(h0, id, h1, name, h2, rest);
    assert h0 == "{" + (Named("id") + "\"");
    assert h1 == "\"" + ("," + (Named("name") + "\""));
    assert h2 == "\"" + ",\"readings\":[";
    var y, z := id + (h1 + (name + (h2 + rest))), name + (h2 + rest);
    Regroup("\"", ",\"readings\":[", rest);
    Regroup("\"", "," + (Named("name") + "\""), z);
    Regroup(",", Named("name") + "\"", z);
    Regroup(Named("name"), "\"", z);
    Regroup("{", Named("id") + "\"", y);
    Regroup(Named("id"), "\"", y);
  }

  lemma FiveThen(a: string, b: string, c: string, d: string, e: string, f: string)
    ensures a + b + c + d + e + f == a + (b + (c + (d + (e + f))))
  {
    Regroup(a + b + c + d, e, f);
    Regroup(a + b + c, d, e + f);
    Regroup(a + b, c, d + (e + f));
    Regroup(a, b, c + (d + (e + f)));
  }

  /** The body names its client: the text in quotes behind the key is the id, and behind the other the name. */
  lemma HeaderTells(m: Mode, id: string, name: string, rs: seq<ClientRecord>)
    requires '"' !in id && '"' !in name
    ensures Quoted(After(After(Body(m, id, name, rs), "\"id\":"), "\"")) == id
    ensures Quoted(After(After(Body(m, id, name, rs), "\"name\":"), "\"")) == name
  {
    var rest := Readings(m, rs) + "]}";
    Regroup(Header(id, name), Readings(m, rs), "]}");
    HeaderInPieces(id, name, rest);
    PiecesTell(id, name, ",\"readings\":[" + rest, Body(m, id, name, rs));
    assert Named("id") == "\"id\":" && Named("name") == "\"name\":";
  }

  lemma PiecesTell(id: string, name: string, end: string, text: string)
    requires '"' !in id && '"' !in name
    requires text == "{" + (Named("id") + ("\"" + (id + ("\"" + ("," + (Named("name") + ("\"" + (name + ("\"" + end)))))))))
    ensures Quoted(After(After(text, Named("id")), "\"")) == id
    ensures Quoted(After(After(text, Named("name")), "\"")) == name
  {
    var later := Named("name") + ("\"" + (name + ("\"" + end)));
    var value := "\"" + (id + ("\"" + ("," + later)));
    CharSkipped("{", Named("id") + value, Named("id"));
    AfterSkips("{", Named("id") + value, Named("id"));
    AfterKey(Named("id"), value);
    AfterKey("\"", id + ("\"" + ("," + later)));
    QuotedEnds(id, "," + later);
    NameBehind(id, later, text);
    AfterKey(Named("name"), "\"" + (name + ("\"" + end)));
    AfterKey("\"", name + ("\"" + end));
    QuotedEnds(name, end);
  }

  lemma NameBehind(id: string, later: string, text: string)
    requires '"' !in id && text == "{" + (Named("id") + ("\"" + (id + ("\"" + ("," + later)))))
    ensures After(text, Named("name")) == After(later, Named("name"))
  {
    var value := "\"" + (id + ("\"" + ("," + later)));
    CharSkipped("{", Named("id") + value, Named("name"));
    AfterSkips("{", Named("id") + value, Named("name"));
    NameSkipped("id", "name", value);
    AfterSkips(Named("id"), value, Named("name"));
    ValueSkipped(id, "name", later);
  }

  lemma ValueSkipped(v: string, m: string, rest: string)
    requires '"' !in v && Clean(m) && m[0] != ','
    ensures After("\"" + (v + ("\"" + ("," + rest))), Named(m)) == After(rest, Named(m))
  {
    var p := "\"" + v + "\"" + ",";
    var text := "\"" + (v + ("\"" + ("," + rest)));
    assert text == p + rest == "\"" + v + "\"" + ("," + rest);
    var i := OtherName(v, m, "," + rest);
    NotStart(Named(m), text, i);
    forall j | 0 <= j < |p| ensures !(Named(m) <= (p + rest)[j..]) {
      if j == 0 {
        assert text[0..] == text;
      } else if j <= |v| {
        assert text[j..][0] == v[j - 1] && v[j - 1] in v;
      } else if j == |v| + 1 {
        assert text[j..][1] == ',' && Named(m)[1] == m[0];
      } else {
        assert text[j..][0] == ',';
      }
    }
    AfterSkips(p, rest, Named(m));
  }
}
