/** The canonical serializer of the ABI export: JSON with sorted object keys, and a decoder
    that shows what its text determines. */
module StableJson {
  import opened Sequences
  import opened Hex

  // ---------------------------------------------------------------------------
  // Values
  // ---------------------------------------------------------------------------

  /** A JavaScript value. An object is the sequence of assignments that built it, so a key
      assigned again keeps its place and takes the new value. */
  datatype Js =
    | Undefined
    | Null
    | Bool(b: bool)
    | Number(n: int)
    | Text(s: string)
    | Array(items: seq<Js>)
    | Object(fields: seq<Field>)

  datatype Field = Field(key: string, value: Js)

  /** `Object.keys`: each key once, in the order of first assignment. */
  function Keys(fields: seq<Field>): seq<string> {
    if fields == [] then []
    else
      var init, k := Keys(fields[..|fields| - 1]), fields[|fields| - 1].key;
      if k in init then init else init + [k]
  }

  predicate Distinct(keys: seq<string>) {
    forall i, j | 0 <= i < j < |keys| :: keys[i] != keys[j]
  }

  lemma {:induction false} KeysAreDistinct(fields: seq<Field>)
    ensures Distinct(Keys(fields))
  {
    if fields != [] {
      KeysAreDistinct(fields[..|fields| - 1]);
    }
  }

  /** `record[key]`: the last value assigned. */
  function Lookup(fields: seq<Field>, key: string): (v: Js)
    requires key in Keys(fields)
    ensures fields decreases to v
  {
    var last := fields[|fields| - 1];
    if last.key == key then last.value else Lookup(fields[..|fields| - 1], key)
  }

  /** It is the value of the last field with that key. */
  lemma {:induction false} LookupIsLast(fields: seq<Field>, k: nat)
    requires k < |fields| && forall j | k < j < |fields| :: fields[j].key != fields[k].key
    ensures fields[k].key in Keys(fields) && Lookup(fields, fields[k].key) == fields[k].value
  {
    if k < |fields| - 1 {
      LookupIsLast(fields[..|fields| - 1], k);
    }
  }

  /** What a value says: objects are maps, and `undefined` reads as null. */
  datatype Json =
    | JNull
    | JBool(b: bool)
    | JNumber(n: int)
    | JText(s: string)
    | JArray(items: seq<Json>)
    | JObject(record: map<string, Json>)

  function Meaning(v: Js): Json
    decreases v, 0
  {
    match v
    case Undefined => JNull
    case Null => JNull
    case Bool(b) => JBool(b)
    case Number(n) => JNumber(n)
    case Text(s) => JText(s)
    case Array(items) => JArray(Meanings(items))
    case Object(fields) => JObject(Record(fields, Keys(fields)))
  }

  function Meanings(items: seq<Js>): (r: seq<Json>)
    ensures |r| == |items|
    ensures forall i | 0 <= i < |items| :: r[i] == Meaning(items[i])
    decreases items, 0
  {
    if items == [] then [] else [Meaning(items[0])] + Meanings(items[1..])
  }

  function Record(fields: seq<Field>, keys: seq<string>): (r: map<string, Json>)
    requires forall k | k in keys :: k in Keys(fields)
    ensures forall k :: k in r <==> k in keys
    ensures forall k | k in keys :: r[k] == Meaning(Lookup(fields, k))
    decreases fields, 1
  {
    map k | k in keys :: Meaning(Lookup(fields, k))
  }

  // ---------------------------------------------------------------------------
  // Key order
  // ---------------------------------------------------------------------------

  predicate Less(a: string, b: string) {
    if b == "" then false
    else if a == "" then true
    else a[0] < b[0] || (a[0] == b[0] && Less(a[1..], b[1..]))
  }

  predicate Ascending(keys: seq<string>) {
    forall i, j | 0 <= i < j < |keys| :: Less(keys[i], keys[j])
  }

  /** `a` comes before `b`: where they first differ `a` has the smaller character, or there it ends. */
  ghost predicate ComesFirst(a: string, b: string) {
    exists k :: DiffersAt(a, b, k)
  }

  ghost predicate DiffersAt(a: string, b: string, k: int) {
    0 <= k <= |a| && k < |b| && a[..k] == b[..k] && (k == |a| || a[k] < b[k])
  }

  lemma {:induction false} LessIsByCharacters(a: string, b: string)
    ensures Less(a, b) <==> ComesFirst(a, b)
  {
    if b == "" || a == "" {
      assert b != "" ==> DiffersAt(a, b, 0);
    } else if a[0] != b[0] {
      assert a[0] < b[0] ==> DiffersAt(a, b, 0);
      forall k | DiffersAt(a, b, k) ensures a[0] < b[0] {
        assert k > 0 ==> a[..k][0] == b[..k][0];
      }
    } else {
      LessIsByCharacters(a[1..], b[1..]);
      if k :| DiffersAt(a, b, k) {
        assert k > 0;
        assert a[1..][..k - 1] == a[..k][1..] && b[1..][..k - 1] == b[..k][1..];
        assert DiffersAt(a[1..], b[1..], k - 1);
      }
      if k :| DiffersAt(a[1..], b[1..], k) {
        assert a[..k + 1] == [a[0]] + a[1..][..k] && b[..k + 1] == [b[0]] + b[1..][..k];
        assert DiffersAt(a, b, k + 1);
      }
    }
  }

  lemma {:induction false} LessIsTotal(a: string, b: string)
    ensures a == b || Less(a, b) || Less(b, a)
    ensures !(Less(a, b) && Less(b, a)) && (Less(a, b) ==> a != b)
  {
    if a != "" && b != "" && a[0] == b[0] {
      LessIsTotal(a[1..], b[1..]);
      assert a == [a[0]] + a[1..] && b == [b[0]] + b[1..];
    }
  }

  lemma {:induction false} LessIsTransitive(a: string, b: string, c: string)
    requires Less(a, b) && Less(b, c)
    ensures Less(a, c)
  {
    if a != "" && a[0] == b[0] == c[0] {
      LessIsTransitive(a[1..], b[1..], c[1..]);
    }
  }

  function Insert(key: string, sorted: seq<string>): seq<string> {
    if sorted == [] || Less(key, sorted[0]) then [key] + sorted else [sorted[0]] + Insert(key, sorted[1..])
  }

  /** `keys.sort()` */
  function Sort(keys: seq<string>): seq<string> {
    if keys == [] then [] else Insert(keys[0], Sort(keys[1..]))
  }

  lemma {:induction false} InsertSorts(key: string, sorted: seq<string>)
    requires Ascending(sorted) && key !in sorted
    ensures Ascending(Insert(key, sorted))
    ensures forall k :: k in Insert(key, sorted) <==> k == key || k in sorted
  {
    if sorted != [] {
      LessIsTotal(key, sorted[0]);
      if Less(key, sorted[0]) {
        forall i | 0 <= i < |sorted| ensures Less(key, sorted[i]) {
          if i > 0 {
            LessIsTransitive(key, sorted[0], sorted[i]);
          }
        }
      } else {
        var rest := sorted[1..];
        InsertSorts(key, rest);
        assert forall k :: k in sorted <==> k == sorted[0] || k in rest;
        assert forall k | k in Insert(key, rest) :: Less(sorted[0], k);
      }
    }
  }

  lemma {:induction false} SortAscends(keys: seq<string>)
    requires Distinct(keys)
    ensures Ascending(Sort(keys))
    ensures forall k :: k in Sort(keys) <==> k in keys
  {
    if keys != [] {
      SortAscends(keys[1..]);
      InsertSorts(keys[0], Sort(keys[1..]));
      assert forall k :: k in keys <==> k == keys[0] || k in keys[1..];
    }
  }

  /** Sorting distinct keys yields the same keys, each before the next in the order of their characters. */
  lemma SortSorts(keys: seq<string>)
    requires Distinct(keys)
    ensures forall i, j | 0 <= i < j < |Sort(keys)| :: ComesFirst(Sort(keys)[i], Sort(keys)[j])
    ensures forall k :: k in Sort(keys) <==> k in keys
  {
    SortAscends(keys);
    forall i, j | 0 <= i < j < |Sort(keys)| ensures ComesFirst(Sort(keys)[i], Sort(keys)[j]) {
      LessIsByCharacters(Sort(keys)[i], Sort(keys)[j]);
    }
  }

  lemma {:induction false} InsertCommutes(a: string, b: string, sorted: seq<string>)
    ensures Insert(a, Insert(b, sorted)) == Insert(b, Insert(a, sorted))
  {
    LessIsTotal(a, b);
    if sorted != [] {
      var head, rest := sorted[0], sorted[1..];
      LessIsTotal(a, head);
      LessIsTotal(b, head);
      if Less(a, head) && Less(head, b) {
        LessIsTransitive(a, head, b);
      }
      if Less(b, head) && Less(head, a) {
        LessIsTransitive(b, head, a);
      }
      InsertCommutes(a, b, rest);
    }
  }

  lemma {:induction false} SortInside(before: seq<string>, key: string, after: seq<string>)
    ensures Sort(before + [key] + after) == Insert(key, Sort(before + after))
  {
    if before == [] {
      assert before + [key] + after == [key] + after && before + after == after;
    } else {
      assert (before + [key] + after)[1..] == before[1..] + [key] + after;
      assert (before + after)[1..] == before[1..] + after;
      SortInside(before[1..], key, after);
      InsertCommutes(before[0], key, Sort(before[1..] + after));
    }
  }

  lemma {:induction false} InsertKeeps(key: string, sorted: seq<string>)
    ensures multiset(Insert(key, sorted)) == multiset(sorted) + multiset{key}
  {
    if sorted != [] {
      assert sorted == [sorted[0]] + sorted[1..];
      InsertKeeps(key, sorted[1..]);
    }
  }

  lemma {:induction false} SortKeeps(keys: seq<string>)
    ensures multiset(Sort(keys)) == multiset(keys)
  {
    if keys != [] {
      assert keys == [keys[0]] + keys[1..];
      SortKeeps(keys[1..]);
      InsertKeeps(keys[0], Sort(keys[1..]));
    }
  }

  lemma {:induction false} SortIgnoresOrder(a: seq<string>, b: seq<string>)
    requires multiset(a) == multiset(b)
    ensures Sort(a) == Sort(b)
    decreases |a|
  {
    hide Insert;
    assert |a| == |multiset(a)| == |multiset(b)| == |b|;
    if a != [] {
      assert a[0] in multiset(b);
      var k :| 0 <= k < |b| && b[k] == a[0];
      var before, after := b[..k], b[k + 1..];
      TakenOut(a, b, k);
      SortIgnoresOrder(a[1..], before + after);
      SortInside(before, a[0], after);
      assert b == before + [a[0]] + after;
    }
  }

  /** Sorted texts tell what was sorted, up to its order, and are told by it. */
  lemma SortTellsExactly(a: seq<string>, b: seq<string>)
    ensures Sort(a) == Sort(b) <==> multiset(a) == multiset(b)
  {
    hide Sort;
    SortKeeps(a);
    SortKeeps(b);
    if multiset(a) == multiset(b) {
      SortIgnoresOrder(a, b);
    }
  }

  /** A strictly ascending enumeration is determined by the set it enumerates. */
  lemma {:induction false} AscendingIsUnique(a: seq<string>, b: seq<string>)
    requires Ascending(a) && Ascending(b)
    requires forall k :: k in a <==> k in b
    ensures a == b
  {
    assert a == [] <==> b == [] by {
      assert a != [] ==> a[0] in a;
      assert b != [] ==> b[0] in b;
    }
    if a != [] {
      assert a[0] in b && b[0] in a;
      LessIsTotal(a[0], b[0]);
      assert a[0] == b[0];
      forall k ensures k in a[1..] <==> k in b[1..] {
        LessIsTotal(a[0], k);
        assert k in a <==> k == a[0] || k in a[1..];
        assert k in b <==> k == b[0] || k in b[1..];
        assert k in a[1..] ==> Less(a[0], k);
        assert k in b[1..] ==> Less(b[0], k);
      }
      AscendingIsUnique(a[1..], b[1..]);
    }
  }

  // ---------------------------------------------------------------------------
  // Printing
  // ---------------------------------------------------------------------------

  /** One character of a string literal, escaped as in section 7 of RFC 8259 and as the
      language's own serializer does it: the short escapes, and four hex digits for the other
      control characters. */
  function EscapeChar(c: char): string {
    if c == '"' then "\\\""
    else if c == '\\' then "\\\\"
    else if c as int == 8 then "\\b"
    else if c == '\t' then "\\t"
    else if c == '\n' then "\\n"
    else if c as int == 12 then "\\f"
    else if c == '\r' then "\\r"
    else if c as int < 32 then "\\u00" + [HexDigit(c as int / 16), HexDigit(c as int % 16)]
    else [c]
  }

  function Escape(s: string): string {
    if s == "" then "" else EscapeChar(s[0]) + Escape(s[1..])
  }

  function Quote(s: string): string {
    "\"" + Escape(s) + "\""
  }

  function Digit(n: nat): char
    requires n < 10
  {
    "0123456789"[n]
  }

  function PrintNat(n: nat): string {
    if n < 10 then [Digit(n)] else PrintNat(n / 10) + [Digit(n % 10)]
  }

  function PrintInt(n: int): string {
    if n < 0 then "-" + PrintNat(-n) else PrintNat(n)
  }

  function Stringify(v: Js): string
    decreases v, 0
  {
    match v
    case Undefined => "null"
    case Null => "null"
    case Bool(b) => if b then "true" else "false"
    case Number(n) => PrintInt(n)
    case Text(s) => Quote(s)
    case Array(items) => "[" + PrintItems(items) + "]"
    case Object(fields) =>
      KeysAreDistinct(fields);
      SortAscends(Keys(fields));
      "{" + PrintFields(fields, Sort(Keys(fields))) + "}"
  }

  function PrintItems(items: seq<Js>): string
    decreases items, 0
  {
    if items == [] then ""
    else if |items| == 1 then Stringify(items[0])
    else Stringify(items[0]) + "," + PrintItems(items[1..])
  }

  function PrintField(fields: seq<Field>, key: string): string
    requires key in Keys(fields)
    decreases fields, 1
  {
    Quote(key) + ":" + Stringify(Lookup(fields, key))
  }

  function PrintFields(fields: seq<Field>, keys: seq<string>): string
    requires forall k | k in keys :: k in Keys(fields)
    decreases fields, 2, |keys|
  {
    if keys == [] then ""
    else if |keys| == 1 then PrintField(fields, keys[0])
    else PrintField(fields, keys[0]) + "," + PrintFields(fields, keys[1..])
  }

  // ---------------------------------------------------------------------------
  // Reading back
  // ---------------------------------------------------------------------------

  datatype Parsed<T> = Fail | Got(value: T, rest: string)

  predicate IsDigit(c: char) {
    '0' <= c <= '9'
  }

  /** One possibly escaped character. */
  function ReadChar(t: string): (r: Parsed<char>)
    ensures r.Got? ==> |r.rest| < |t|
  {
    if t == "" || t[0] == '"' then Fail
    else if t[0] != '\\' then Got(t[0], t[1..])
    else if |t| < 2 then Fail
    else if t[1] == '"' || t[1] == '\\' then Got(t[1], t[2..])
    else if t[1] == 'b' then Got(8 as char, t[2..])
    else if t[1] == 't' then Got('\t', t[2..])
    else if t[1] == 'n' then Got('\n', t[2..])
    else if t[1] == 'f' then Got(12 as char, t[2..])
    else if t[1] == 'r' then Got('\r', t[2..])
    else if |t| >= 6 && t[1..4] == "u00" && HexValue(t[4]) >= 0 && HexValue(t[5]) >= 0 then
      Got((HexValue(t[4]) * 16 + HexValue(t[5])) as char, t[6..])
    else Fail
  }

  /** The rest of a string literal, after its opening quote. */
  function ReadString(t: string): (r: Parsed<string>)
    ensures r.Got? ==> |r.rest| < |t|
    decreases |t|
  {
    if t != "" && t[0] == '"' then Got("", t[1..])
    else
      match ReadChar(t)
      case Fail => Fail
      case Got(c, more) =>
        match ReadString(more)
        case Fail => Fail
        case Got(s, rest) => Got([c] + s, rest)
  }

  function ReadDigits(acc: nat, t: string): (r: (int, string))
    ensures |r.1| <= |t|
    decreases |t|
  {
    if t != "" && IsDigit(t[0]) then ReadDigits(acc * 10 + (t[0] as int - '0' as int), t[1..]) else (acc, t)
  }

  function ReadNumber(t: string): (r: Parsed<Json>)
    ensures r.Got? ==> |r.rest| < |t|
  {
    if t == "" then Fail
    else if t[0] == '-' then
      var r := ReadDigits(0, t[1..]);
      Got(JNumber(-r.0), r.1)
    else if IsDigit(t[0]) then
      var r := ReadDigits(t[0] as int - '0' as int, t[1..]);
      Got(JNumber(r.0), r.1)
    else Fail
  }

  function ReadWord(t: string, word: string, v: Json): (r: Parsed<Json>)
    requires word != ""
    ensures r.Got? ==> |r.rest| < |t|
  {
    if word <= t then Got(v, t[|word|..]) else Fail
  }

  function Parse(t: string): (r: Parsed<Json>)
    ensures r.Got? ==> |r.rest| < |t|
    decreases |t|, 0
  {
    if t == "" then Fail
    else if t[0] == 'n' then ReadWord(t, "null", JNull)
    else if t[0] == 't' then ReadWord(t, "true", JBool(true))
    else if t[0] == 'f' then ReadWord(t, "false", JBool(false))
    else if t[0] == '"' then
      match ReadString(t[1..])
      case Fail => Fail
      case Got(s, rest) => Got(JText(s), rest)
    else if t[0] == '[' then
      if |t| > 1 && t[1] == ']' then Got(JArray([]), t[2..])
      else
        match ParseItems(t[1..])
        case Fail => Fail
        case Got(items, rest) => Got(JArray(items), rest)
    else if t[0] == '{' then
      if |t| > 1 && t[1] == '}' then Got(JObject(map[]), t[2..])
      else
        match ParseFields(t[1..])
        case Fail => Fail
        case Got(record, rest) => Got(JObject(record), rest)
    else ReadNumber(t)
  }

  /** One or more items, up to and with the closing bracket. */
  function ParseItems(t: string): (r: Parsed<seq<Json>>)
    ensures r.Got? ==> |r.rest| < |t|
    decreases |t|, 1
  {
    match Parse(t)
    case Fail => Fail
    case Got(v, more) =>
      if more != "" && more[0] == ']' then Got([v], more[1..])
      else if more != "" && more[0] == ',' then
        match ParseItems(more[1..])
        case Fail => Fail
        case Got(vs, rest) => Got([v] + vs, rest)
      else Fail
  }

  /** One or more fields, up to and with the closing brace. */
  function ParseFields(t: string): (r: Parsed<map<string, Json>>)
    ensures r.Got? ==> |r.rest| < |t|
    decreases |t|, 1
  {
    if t == "" || t[0] != '"' then Fail
    else
      match ReadString(t[1..])
      case Fail => Fail
      case Got(key, colon) =>
        if colon == "" || colon[0] != ':' then Fail
        else
          match Parse(colon[1..])
          case Fail => Fail
          case Got(v, more) =>
            if more != "" && more[0] == '}' then Got(map[key := v], more[1..])
            else if more != "" && more[0] == ',' then
              match ParseFields(more[1..])
              case Fail => Fail
              case Got(record, rest) => Got(record[key := v], rest)
            else Fail
  }

  // ---------------------------------------------------------------------------
  // Round trips of the parts
  // ---------------------------------------------------------------------------

  lemma HexEscapeReadsBack(c: char, rest: string)
    requires c as int < 32
    ensures ReadChar("\\u00" + [HexDigit(c as int / 16), HexDigit(c as int % 16)] + rest) == Got(c, rest)
  {
    var high, low := HexDigit(c as int / 16), HexDigit(c as int % 16);
    var t := "\\u00" + [high, low] + rest;
    HexReadsBack(c as int / 16);
    HexReadsBack(c as int % 16);
    assert t[1..4] == "u00" && t[4] == high && t[5] == low && t[6..] == rest;
  }

  lemma CharReadsBack(c: char, rest: string)
    ensures ReadChar(EscapeChar(c) + rest) == Got(c, rest)
    ensures (EscapeChar(c) + rest)[0] != '"'
  {
    var e := EscapeChar(c);
    var t := e + rest;
    if |e| == 6 {
      HexEscapeReadsBack(c, rest);
    } else {
      assert t[|e|..] == rest;
    }
  }

  lemma {:induction false} StringReadsBack(s: string, rest: string)
    ensures ReadString(Escape(s) + "\"" + rest) == Got(s, rest)
  {
    hide EscapeChar, ReadChar;
    if s == "" {
      assert (Escape(s) + "\"" + rest)[1..] == rest;
    } else {
      var tail := Escape(s[1..]) + "\"" + rest;
      CharReadsBack(s[0], tail);
      StringReadsBack(s[1..], rest);
      OneMoreCharacter(EscapeChar(s[0]) + tail, s[0], tail, s[1..], rest);
      assert Escape(s) + "\"" + rest == EscapeChar(s[0]) + tail;
      assert s == [s[0]] + s[1..];
    }
  }

  lemma OneMoreCharacter(t: string, c: char, tail: string, s: string, rest: string)
    requires t != "" && t[0] != '"' && ReadChar(t) == Got(c, tail) && ReadString(tail) == Got(s, rest)
    ensures ReadString(t) == Got([c] + s, rest)
  {
  }

  lemma {:induction false} DigitsReadBack(n: nat, rest: string)
    ensures ReadDigits(0, PrintNat(n) + rest) == ReadDigits(n, rest)
    ensures IsDigit(PrintNat(n)[0])
  {
    var d := Digit(n % 10);
    assert d as int - '0' as int == n % 10;
    assert ([d] + rest)[1..] == rest;
    if n >= 10 {
      DigitsReadBack(n / 10, [d] + rest);
      assert PrintNat(n) + rest == PrintNat(n / 10) + ([d] + rest);
    }
  }

  /** Texts that may follow a value: nothing, or anything that does not extend a number. */
  predicate Delimited(rest: string) {
    rest == "" || !IsDigit(rest[0])
  }

  lemma NumberReadsBack(n: int, rest: string)
    requires Delimited(rest)
    ensures Parse(PrintInt(n) + rest) == Got(JNumber(n), rest)
  {
    NumberTextReadsBack(n, rest);
    NumberStarts(PrintInt(n) + rest);
  }

  lemma NumberTextReadsBack(n: int, rest: string)
    requires Delimited(rest)
    ensures var t := PrintInt(n) + rest;
            ReadNumber(t) == Got(JNumber(n), rest) && t != "" && (t[0] == '-' || IsDigit(t[0]))
  {
    var digits := PrintNat(if n < 0 then -n else n);
    DigitsReadBack(if n < 0 then -n else n, rest);
    DigitsStop(if n < 0 then -n else n, rest);
    if n < 0 {
      assert ("-" + digits + rest)[1..] == digits + rest;
    } else {
      FirstDigit(digits + rest);
    }
  }

  lemma FirstDigit(t: string)
    requires t != "" && IsDigit(t[0])
    ensures ReadDigits(0, t) == ReadDigits(t[0] as int - '0' as int, t[1..])
  {
  }

  lemma NumberStarts(t: string)
    requires t != "" && (t[0] == '-' || IsDigit(t[0]))
    ensures Parse(t) == ReadNumber(t)
  {
  }

  lemma DigitsStop(n: nat, rest: string)
    requires Delimited(rest)
    ensures ReadDigits(n, rest) == (n, rest)
  {
  }

  lemma TextReadsBack(s: string, rest: string)
    ensures Parse(Quote(s) + rest) == Got(JText(s), rest)
  {
    assert (Quote(s) + rest)[1..] == Escape(s) + "\"" + rest;
    StringReadsBack(s, rest);
  }

  // ---------------------------------------------------------------------------
  // The round trip
  // ---------------------------------------------------------------------------

  lemma FirstCharacter(v: Js)
    ensures Stringify(v) != "" && Stringify(v)[0] != ']' && Stringify(v)[0] != '}'
  {
    if v.Number? {
      DigitsReadBack(if v.n < 0 then -v.n else v.n, "");
    }
  }

  lemma BracketsReadBack(text: string, items: seq<Json>, rest: string)
    requires text != "" && text[0] != ']' && ParseItems(text) == Got(items, rest)
    ensures Parse("[" + text) == Got(JArray(items), rest)
  {
    assert ("[" + text)[1..] == text;
  }

  lemma BracesReadBack(text: string, record: map<string, Json>, rest: string)
    requires text != "" && text[0] != '}' && ParseFields(text) == Got(record, rest)
    ensures Parse("{" + text) == Got(JObject(record), rest)
  {
    assert ("{" + text)[1..] == text;
  }

  lemma ConstantsReadBack(rest: string)
    ensures Parse("null" + rest) == Got(JNull, rest)
    ensures Parse("true" + rest) == Got(JBool(true), rest) && Parse("false" + rest) == Got(JBool(false), rest)
    ensures Parse("[]" + rest) == Got(JArray([]), rest) && Parse("{}" + rest) == Got(JObject(map[]), rest)
  {
    assert ("null" + rest)[4..] == rest;
    assert ("true" + rest)[4..] == rest;
    assert ("false" + rest)[5..] == rest;
    assert ("[]" + rest)[2..] == rest;
    assert ("{}" + rest)[2..] == rest;
  }

  /** The decoder recovers from the printed text, followed by anything, exactly what the value
      says and the text that followed. */
  lemma {:induction false} ReadsBack(v: Js, rest: string)
    requires Delimited(rest)
    ensures Parse(Stringify(v) + rest) == Got(Meaning(v), rest)
    decreases v, 0
  {
    match v {
      case Number(n) => NumberReadsBack(n, rest);
      case Text(s) => TextReadsBack(s, rest);
      case Array(items) => ArrayReadsBack(items, rest);
      case Object(fields) => ObjectReadsBack(fields, rest);
      case _ => ConstantsReadBack(rest);
    }
  }

  lemma {:induction false} ArrayReadsBack(items: seq<Js>, rest: string)
    ensures Parse("[" + PrintItems(items) + "]" + rest) == Got(JArray(Meanings(items)), rest)
    decreases items, 2
  {
    if items == [] {
      ConstantsReadBack(rest);
      NoItemsText(rest);
    } else {
      ItemsReadBack(items, rest);
      ItemsStart(items);
      WrapItems(PrintItems(items), Meanings(items), rest);
    }
  }

  lemma NoItemsText(rest: string)
    ensures "[" + PrintItems([]) + "]" + rest == "[]" + rest
  {
    assert "[" + "" + "]" == "[]";
  }

  lemma WrapItems(text: string, items: seq<Json>, rest: string)
    requires text != "" && text[0] != ']' && ParseItems(text + "]" + rest) == Got(items, rest)
    ensures Parse("[" + text + "]" + rest) == Got(JArray(items), rest)
  {
    BracketsReadBack(text + "]" + rest, items, rest);
    assert "[" + text + "]" + rest == "[" + (text + "]" + rest);
  }

  lemma ItemsStart(items: seq<Js>)
    requires items != []
    ensures PrintItems(items) != "" && PrintItems(items)[0] != ']'
  {
    FirstCharacter(items[0]);
  }

  lemma {:induction false} ItemsReadBack(items: seq<Js>, rest: string)
    requires items != []
    ensures ParseItems(PrintItems(items) + "]" + rest) == Got(Meanings(items), rest)
    decreases items, 1
  {
    var head := Stringify(items[0]);
    if |items| == 1 {
      ReadsBack(items[0], "]" + rest);
      LastItem(head, Meaning(items[0]), rest);
      assert Meanings(items) == [Meaning(items[0])];
    } else {
      var more := PrintItems(items[1..]);
      ReadsBack(items[0], "," + (more + "]" + rest));
      ItemsReadBack(items[1..], rest);
      MoreItems(head, Meaning(items[0]), more, Meanings(items[1..]), rest);
    }
  }

  lemma LastItem(head: string, v: Json, rest: string)
    requires Parse(head + ("]" + rest)) == Got(v, "]" + rest)
    ensures ParseItems(head + "]" + rest) == Got([v], rest)
  {
    Regroup(head, "]", rest, "", "");
    ItemEnds(head + ("]" + rest), v, ']', rest);
  }

  lemma MoreItems(head: string, v: Json, more: string, vs: seq<Json>, rest: string)
    requires Parse(head + ("," + (more + "]" + rest))) == Got(v, "," + (more + "]" + rest))
    requires ParseItems(more + "]" + rest) == Got(vs, rest)
    ensures ParseItems(head + "," + more + "]" + rest) == Got([v] + vs, rest)
  {
    Regroup(head, ",", more, "]", rest);
    ItemEnds(head + ("," + (more + "]" + rest)), v, ',', more + "]" + rest);
  }

  lemma Regroup(a: string, b: string, c: string, d: string, e: string)
    ensures a + b + c == a + (b + c)
    ensures a + b + c + d + e == a + (b + (c + d + e))
  {
  }

  /** What an item list makes of the character after its first item. */
  lemma ItemEnds(t: string, v: Json, c: char, after: string)
    requires Parse(t) == Got(v, [c] + after)
    ensures c == ']' ==> ParseItems(t) == Got([v], after)
    ensures c == ',' && ParseItems(after).Got? ==>
            ParseItems(t) == Got([v] + ParseItems(after).value, ParseItems(after).rest)
  {
    assert ([c] + after)[1..] == after;
  }

  lemma {:induction false} ObjectReadsBack(fields: seq<Field>, rest: string)
    ensures Parse(Stringify(Object(fields)) + rest) == Got(Meaning(Object(fields)), rest)
    decreases fields, 2
  {
    var keys := Keys(fields);
    KeysAreDistinct(fields);
    SortAscends(keys);
    SortedFieldsReadBack(fields, keys, Sort(keys), rest);
  }

  lemma {:induction false} SortedFieldsReadBack(fields: seq<Field>, keys: seq<string>, sorted: seq<string>,
                                               rest: string)
    requires forall k | k in keys :: k in Keys(fields)
    requires forall k :: k in sorted <==> k in keys
    ensures Parse("{" + PrintFields(fields, sorted) + "}" + rest) == Got(JObject(Record(fields, keys)), rest)
    decreases fields, 1, |sorted| + 1
  {
    assert Record(fields, keys) == Record(fields, sorted);
    if sorted == [] {
      ConstantsReadBack(rest);
      Regroup("{", "", "}", rest, "");
      assert "{" + "" + "}" == "{}";
    } else {
      FieldsReadBack(fields, sorted, rest);
      WrapFields(PrintFields(fields, sorted), Record(fields, sorted), rest);
    }
  }

  lemma WrapFields(text: string, record: map<string, Json>, rest: string)
    requires text != "" && text[0] == '"' && ParseFields(text + "}" + rest) == Got(record, rest)
    ensures Parse("{" + text + "}" + rest) == Got(JObject(record), rest)
  {
    BracesReadBack(text + "}" + rest, record, rest);
    assert "{" + text + "}" + rest == "{" + (text + "}" + rest);
  }

  lemma {:induction false} FieldsReadBack(fields: seq<Field>, keys: seq<string>, rest: string)
    requires keys != [] && forall k | k in keys :: k in Keys(fields)
    ensures ParseFields(PrintFields(fields, keys) + "}" + rest) == Got(Record(fields, keys), rest)
    ensures PrintFields(fields, keys) != "" && PrintFields(fields, keys)[0] == '"'
    decreases fields, 1, |keys|
  {
    var key := keys[0];
    var value := Lookup(fields, key);
    var text := Stringify(value);
    if |keys| == 1 {
      ReadsBack(value, "}" + rest);
      LastField(key, text, Meaning(value), rest);
      RecordGrows(fields, keys);
    } else {
      var more := PrintFields(fields, keys[1..]);
      ReadsBack(value, "," + (more + "}" + rest));
      FieldsReadBack(fields, keys[1..], rest);
      MoreFields(key, text, Meaning(value), more, Record(fields, keys[1..]), rest);
      RecordGrows(fields, keys);
    }
  }

  lemma RecordGrows(fields: seq<Field>, keys: seq<string>)
    requires keys != [] && forall k | k in keys :: k in Keys(fields)
    ensures Record(fields, keys) == Record(fields, keys[1..])[keys[0] := Meaning(Lookup(fields, keys[0]))]
    ensures |keys| == 1 ==> Record(fields, keys) == map[keys[0] := Meaning(Lookup(fields, keys[0]))]
  {
    assert forall k :: k in keys <==> k == keys[0] || k in keys[1..];
  }

  /** A printed key reads as the key, the colon, and what follows. */
  lemma KeyReadsBack(key: string, after: string)
    ensures var t := Quote(key) + ":" + after;
            t[0] == '"' && ReadString(t[1..]) == Got(key, ":" + after) && (":" + after)[1..] == after
  {
    assert (Quote(key) + ":" + after)[1..] == Escape(key) + "\"" + (":" + after);
    StringReadsBack(key, ":" + after);
  }

  lemma LastField(key: string, text: string, v: Json, rest: string)
    requires Parse(text + ("}" + rest)) == Got(v, "}" + rest)
    ensures ParseFields(Quote(key) + ":" + text + "}" + rest) == Got(map[key := v], rest)
  {
    KeyReadsBack(key, text + ("}" + rest));
    RegroupField(Quote(key), text, "}", rest);
    FieldEnds(Quote(key) + ":" + (text + ("}" + rest)), key, text + ("}" + rest), v, '}', rest);
  }

  lemma MoreFields(key: string, text: string, v: Json, more: string, record: map<string, Json>, rest: string)
    requires Parse(text + ("," + (more + "}" + rest))) == Got(v, "," + (more + "}" + rest))
    requires ParseFields(more + "}" + rest) == Got(record, rest)
    ensures ParseFields(Quote(key) + ":" + text + "," + more + "}" + rest) == Got(record[key := v], rest)
  {
    var tail := more + "}" + rest;
    KeyReadsBack(key, text + ("," + tail));
    RegroupField(Quote(key), text, ",", tail);
    RegroupTail(Quote(key) + ":" + text + ",", more, rest);
    FieldEnds(Quote(key) + ":" + (text + ("," + tail)), key, text + ("," + tail), v, ',', tail);
  }

  lemma RegroupField(quoted: string, text: string, mark: string, after: string)
    ensures quoted + ":" + text + mark + after == quoted + ":" + (text + (mark + after))
  {
  }

  lemma RegroupTail(head: string, more: string, rest: string)
    ensures head + more + "}" + rest == head + (more + "}" + rest)
  {
  }

  /** What a field list makes of the character after its first field. */
  lemma FieldEnds(t: string, key: string, x: string, v: Json, c: char, after: string)
    requires t != "" && t[0] == '"' && ReadString(t[1..]) == Got(key, ":" + x) && (":" + x)[1..] == x
    requires Parse(x) == Got(v, [c] + after)
    ensures c == '}' ==> ParseFields(t) == Got(map[key := v], after)
    ensures c == ',' && ParseFields(after).Got? ==>
            ParseFields(t) == Got(ParseFields(after).value[key := v], ParseFields(after).rest)
  {
    assert ([c] + after)[1..] == after;
  }

  // ---------------------------------------------------------------------------
  // What the text determines
  // ---------------------------------------------------------------------------

  lemma {:induction false} SameMeaningPrintsAlike(a: Js, b: Js)
    requires Meaning(a) == Meaning(b)
    ensures Stringify(a) == Stringify(b)
    decreases a, 0
  {
    if a.Array? {
      ItemsPrintAlike(a.items, b.items);
    } else if a.Object? {
      var ka, kb := Keys(a.fields), Keys(b.fields);
      assert forall k :: k in ka <==> k in Record(a.fields, ka);
      KeysAreDistinct(a.fields);
      KeysAreDistinct(b.fields);
      SortAscends(ka);
      SortAscends(kb);
      AscendingIsUnique(Sort(ka), Sort(kb));
      FieldsPrintAlike(a.fields, b.fields, Sort(ka));
    }
  }

  lemma {:induction false} ItemsPrintAlike(a: seq<Js>, b: seq<Js>)
    requires Meanings(a) == Meanings(b)
    ensures PrintItems(a) == PrintItems(b)
    decreases a, 1
  {
    assert |a| == |b|;
    if a != [] {
      assert Meanings(a)[0] == Meanings(b)[0];
      SameMeaningPrintsAlike(a[0], b[0]);
      if |a| > 1 {
        assert Meanings(a)[1..] == Meanings(a[1..]) && Meanings(b)[1..] == Meanings(b[1..]);
        ItemsPrintAlike(a[1..], b[1..]);
      }
    }
  }

  lemma {:induction false} FieldsPrintAlike(a: seq<Field>, b: seq<Field>, keys: seq<string>)
    requires forall k | k in keys :: k in Keys(a) && k in Keys(b) && Meaning(Lookup(a, k)) == Meaning(Lookup(b, k))
    ensures PrintFields(a, keys) == PrintFields(b, keys)
    decreases a, 1, |keys|
  {
    if keys != [] {
      SameMeaningPrintsAlike(Lookup(a, keys[0]), Lookup(b, keys[0]));
      if |keys| > 1 {
        FieldsPrintAlike(a, b, keys[1..]);
      }
    }
  }

  /** Two values print alike if and only if they say the same: neither key order nor the choice
      between null and `undefined` shows, and nothing else is lost. */
  lemma StringifyExactly(a: Js, b: Js)
    ensures Stringify(a) == Stringify(b) <==> Meaning(a) == Meaning(b)
  {
    if Stringify(a) == Stringify(b) {
      ReadsBack(a, "");
      ReadsBack(b, "");
    } else if Meaning(a) == Meaning(b) {
      SameMeaningPrintsAlike(a, b);
    }
  }

  // ---------------------------------------------------------------------------
  // The text itself
  // ---------------------------------------------------------------------------

  /** Which characters of a string are escaped, and how: the quote, the backslash and the control
      characters, five of these with a letter and the others with four hex digits. */
  lemma EscapesExactly(c: char)
    ensures EscapeChar(c) == [c] <==> c as int >= 32 && c != '"' && c != '\\'
    ensures EscapeChar('"') == "\\\"" && EscapeChar('\\') == "\\\\"
    ensures EscapeChar(8 as char) == "\\b" && EscapeChar(9 as char) == "\\t" && EscapeChar(10 as char) == "\\n"
    ensures EscapeChar(12 as char) == "\\f" && EscapeChar(13 as char) == "\\r"
    ensures c as int < 32 && c as int !in {8, 9, 10, 12, 13} ==>
              EscapeChar(c) == "\\u00" + ["0123456789abcdef"[c as int / 16], "0123456789abcdef"[c as int % 16]]
  {
    assert |"\\u00" + [HexDigit(0), HexDigit(0)]| == 6;
  }

  /** Scalars and arrays are written as in RFC 8259. */
  lemma ArrayText()
    ensures Stringify(Array([Number(-120), Undefined, Bool(true)])) == "[-120,null,true]"
    ensures Stringify(Text("\n\"")) == "\"\\n\\\"\""
    ensures Stringify(Bool(false)) == "false" && Stringify(Array([])) == "[]"
  {
    DecimalText();
    EscapedText();
    hide PrintInt, Quote;
    var items := [Number(-120), Undefined, Bool(true)];
    assert items[1..] == [Undefined, Bool(true)];
    assert items[1..][1..] == [Bool(true)];
  }

  lemma DecimalText()
    ensures PrintInt(-120) == "-120"
  {
    assert PrintNat(1) == "1" && PrintNat(12) == "12" && PrintNat(120) == "120";
  }

  lemma EscapedText()
    ensures Quote("\n\"") == "\"\\n\\\"\""
  {
    assert "\n\""[1..] == "\"" && "\""[1..] == "";
    assert Escape("\"") == "\\\"";
    assert Escape("\n\"") == "\\n" + "\\\"";
  }

  /** Of two fields, whichever was assigned first, the one whose key comes first is written first. */
  lemma FieldText(a: Field, b: Field)
    requires ComesFirst(a.key, b.key)
    ensures Stringify(Object([a, b])) == Stringify(Object([b, a])) ==
            "{" + (Quote(a.key) + ":" + Stringify(a.value) + "," + (Quote(b.key) + ":" + Stringify(b.value))) + "}"
  {
    LessIsByCharacters(a.key, b.key);
    LessIsTotal(a.key, b.key);
    TwoFields(a, b);
    TwoFields(b, a);
  }

  lemma SortTwo(x: string, y: string)
    ensures Sort([x, y]) == if Less(x, y) then [x, y] else [y, x]
  {
    assert [x, y][1..] == [y] && [y][1..] == [];
    assert Sort([y]) == [y] && Insert(x, []) == [x];
    assert Insert(x, [y]) == if Less(x, y) then [x] + [y] else [y] + Insert(x, [y][1..]);
  }

  lemma TwoFields(f: Field, g: Field)
    requires f.key != g.key
    ensures var first, second := if Less(f.key, g.key) then f else g, if Less(f.key, g.key) then g else f;
            Stringify(Object([f, g])) ==
            "{" + (Quote(first.key) + ":" + Stringify(first.value) + ","
                   + (Quote(second.key) + ":" + Stringify(second.value))) + "}"
  {
    LessIsTotal(f.key, g.key);
    var fields := [f, g];
    assert fields[..1] == [f] && fields[..1][..0] == [];
    assert Keys([f]) == [f.key];
    assert Keys(fields) == [f.key, g.key];
    SortTwo(f.key, g.key);
    assert Sort(Keys(fields)) == if Less(f.key, g.key) then [f.key, g.key] else [g.key, f.key];
    LookupIsLast(fields, 0);
    LookupIsLast(fields, 1);
    var first, second := if Less(f.key, g.key) then f else g, if Less(f.key, g.key) then g else f;
    PrintTwo(fields, first.key, second.key);
    hide Sort, Keys, Lookup, PrintFields, Quote;
    assert Stringify(Object(fields)) == "{" + PrintFields(fields, [first.key, second.key]) + "}";
  }

  lemma PrintTwo(fields: seq<Field>, x: string, y: string)
    requires x in Keys(fields) && y in Keys(fields)
    ensures PrintFields(fields, [x, y]) ==
            Quote(x) + ":" + Stringify(Lookup(fields, x)) + "," + (Quote(y) + ":" + Stringify(Lookup(fields, y)))
  {
    hide Quote, Stringify, Lookup, Keys;
    var keys := [x, y];
    assert keys[1..] == [y];
    assert PrintFields(fields, [y]) == PrintField(fields, y);
    assert PrintFields(fields, keys) == PrintField(fields, x) + "," + PrintFields(fields, keys[1..]);
  }
}
