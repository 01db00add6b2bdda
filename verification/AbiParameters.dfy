/** Declared parameter lists: what the program reads out of the text between the brackets. */
module AbiParameters {
  import opened Wrappers
  import opened AbiText
  import opened AbiTypes
  import opened AbiTypeLaws
  import opened Sequences

  // ---------------------------------------------------------------------------
  // Reading
  // ---------------------------------------------------------------------------

  function WordsFrom(s: string, current: string): seq<string>
    decreases |s|
  {
    var word := if current == "" then [] else [current];
    if s == "" then word
    else if IsSpace(s[0]) then word + WordsFrom(s[1..], "")
    else WordsFrom(s[1..], current + [s[0]])
  }

  /** The maximal runs of characters that are not spaces. */
  function Words(s: string): seq<string> {
    WordsFrom(s, "")
  }

  /** Words that say where a value lives or that it may be paid to, and nothing about its type. */
  const MODIFIERS: set<string> := { "memory", "calldata", "storage", "payable" }

  predicate Telling(word: string) {
    word != "indexed" && word !in MODIFIERS
  }

  function TellingWords(words: seq<string>): seq<string> {
    if words == [] then []
    else
      var init, last := words[..|words| - 1], words[|words| - 1];
      TellingWords(init) + if Telling(last) then [last] else []
  }

  /** Of the telling words the first is the type, and the last, if it is another one, the name. */
  function ParameterOf(words: seq<string>): Option<RawParameter> {
    var telling := TellingWords(words);
    if telling == [] then None
    else
      var name := if |telling| > 1 then telling[|telling| - 1] else "";
      Some(RawParameter(name, BaseElementaryType(telling[0]), "indexed" in words))
  }

  function Present<T>(items: seq<Option<T>>): seq<T> {
    if items == [] then []
    else
      var last := items[|items| - 1];
      Present(items[..|items| - 1]) + if last.Some? then [last.value] else []
  }

  function ReadChunks(chunks: seq<string>): (r: seq<Option<RawParameter>>)
    ensures |r| == |chunks| && forall i | 0 <= i < |chunks| :: r[i] == ParameterOf(Words(chunks[i]))
  {
    seq(|chunks|, i requires 0 <= i < |chunks| => ParameterOf(Words(chunks[i])))
  }

  /** The parameters of the chunks that hold a telling word. */
  function Parameters(chunks: seq<string>): seq<RawParameter> {
    Present(ReadChunks(chunks))
  }

  lemma OneMoreChunk(chunks: seq<string>, i: nat)
    requires i < |chunks|
    ensures Parameters(chunks[..i + 1]) ==
            Parameters(chunks[..i]) + var p := ParameterOf(Words(chunks[i])); if p.Some? then [p.value] else []
  {
    assert ReadChunks(chunks[..i + 1]) == ReadChunks(chunks[..i]) + [ParameterOf(Words(chunks[i]))];
  }

  method ParseParameters(raw: string) returns (params: seq<RawParameter>)
    ensures params == Parameters(Split(raw, ','))
  {
    params := [];
    var chunks := SplitTopLevel(raw, ',');
    for i := 0 to |chunks|
      invariant params == Parameters(chunks[..i])
    {
      OneMoreChunk(chunks, i);
      var tokens := Words(chunks[i]);
      if tokens == [] {
        continue;
      }
      var indexed, typeTokens, name := ReadTokens(tokens);
      if typeTokens == [] {
        continue;
      }
      params := params + [RawParameter(name, BaseElementaryType(typeTokens[0]), indexed)];
    }
    assert chunks[..|chunks|] == chunks;
  }

  /** The program's loop over one chunk's tokens. */
  method ReadTokens(tokens: seq<string>) returns (indexed: bool, typeTokens: seq<string>, name: string)
    ensures indexed <==> "indexed" in tokens
    ensures var telling := TellingWords(tokens);
            && typeTokens == (if telling == [] then [] else [telling[0]])
            && name == (if |telling| > 1 then telling[|telling| - 1] else "")
  {
    indexed, typeTokens, name := false, [], "";
    for i := 0 to |tokens|
      invariant indexed <==> "indexed" in tokens[..i]
      invariant var telling := TellingWords(tokens[..i]);
                && typeTokens == (if telling == [] then [] else [telling[0]])
                && name == (if |telling| > 1 then telling[|telling| - 1] else "")
    {
      var token := tokens[i];
      assert tokens[..i + 1] == tokens[..i] + [token] && tokens[..i + 1][..i] == tokens[..i];
      if token == "indexed" {
        indexed := true;
      } else if token == "memory" || token == "calldata" || token == "storage" || token == "payable" {
        continue;
      } else if typeTokens == [] {
        typeTokens := [token];
      } else {
        name := token;
      }
    }
    assert tokens[..|tokens|] == tokens;
  }

  // ---------------------------------------------------------------------------
  // Declarations read back
  // ---------------------------------------------------------------------------

  /** A parameter as a programmer declares it. */
  datatype Declared = Declared(rawType: string, indexed: bool, modifiers: seq<string>, name: string)

  predicate Word(s: string) {
    s != "" && forall i | 0 <= i < |s| :: !IsSpace(s[i])
  }

  predicate ValidDeclared(p: Declared) {
    && Word(p.rawType) && Telling(p.rawType)
    && (forall m | m in p.modifiers :: m in MODIFIERS)
    && (p.name == "" || (Word(p.name) && Telling(p.name)))
  }

  function WordsOf(p: Declared): seq<string> {
    [p.rawType] + (if p.indexed then ["indexed"] else []) + p.modifiers + (if p.name == "" then [] else [p.name])
  }

  /** `text` spells the declaration: its words, with spaces between and around them as one likes. */
  predicate Spells(text: string, p: Declared) {
    Words(text) == WordsOf(p)
  }

  function ReadAs(p: Declared): RawParameter {
    RawParameter(p.name, BaseElementaryType(p.rawType), p.indexed)
  }

  lemma {:induction false} TellingAppend(a: seq<string>, b: seq<string>)
    ensures TellingWords(a + b) == TellingWords(a) + TellingWords(b)
  {
    if b == [] {
      assert a + b == a;
    } else {
      assert (a + b)[..|a + b| - 1] == a + b[..|b| - 1];
      TellingAppend(a, b[..|b| - 1]);
    }
  }

  lemma {:induction false} NothingTelling(words: seq<string>)
    requires forall w | w in words :: !Telling(w)
    ensures TellingWords(words) == []
  {
    if words != [] {
      NothingTelling(words[..|words| - 1]);
    }
  }

  lemma TellingOne(word: string)
    ensures TellingWords([word]) == if Telling(word) then [word] else []
  {
    assert [word][..0] == [];
  }

  lemma TellingParts(first: seq<string>, flag: seq<string>, modifiers: seq<string>, name: seq<string>)
    requires TellingWords(flag) == [] && TellingWords(modifiers) == []
    ensures TellingWords(first + flag + modifiers + name) == TellingWords(first) + TellingWords(name)
  {
    TellingAppend(first + flag + modifiers, name);
    TellingAppend(first + flag, modifiers);
    TellingAppend(first, flag);
  }

  lemma TellingOfDeclaration(p: Declared)
    requires ValidDeclared(p)
    ensures TellingWords(WordsOf(p)) == [p.rawType] + (if p.name == "" then [] else [p.name])
  {
    var flag := if p.indexed then ["indexed"] else [];
    NothingTelling(p.modifiers);
    NothingTelling(flag);
    TellingParts([p.rawType], flag, p.modifiers, if p.name == "" then [] else [p.name]);
    TellingOne(p.rawType);
    TellingOne(p.name);
  }

  lemma IndexedOfDeclaration(p: Declared)
    requires ValidDeclared(p)
    ensures "indexed" in WordsOf(p) <==> p.indexed
  {
    if p.indexed {
      assert WordsOf(p)[1] == "indexed";
    }
  }

  /** A declaration is read as its type, its name and its indexed flag, whatever modifiers it has. */
  lemma DeclarationReadsBack(p: Declared)
    requires ValidDeclared(p)
    ensures ParameterOf(WordsOf(p)) == Some(ReadAs(p))
  {
    TellingOfDeclaration(p);
    IndexedOfDeclaration(p);
  }

  /** The parameters that `ps` are read as. */
  function ReadAll(ps: seq<Declared>): (r: seq<RawParameter>)
    ensures |r| == |ps| && forall i | 0 <= i < |ps| :: r[i] == ReadAs(ps[i])
  {
    seq(|ps|, i requires 0 <= i < |ps| => ReadAs(ps[i]))
  }

  predicate ReadsAs(text: string, r: RawParameter) {
    ParameterOf(Words(text)) == Some(r)
  }

  lemma {:induction false} AllPresent<T>(items: seq<Option<T>>, values: seq<T>)
    requires |items| == |values| && forall i | 0 <= i < |items| :: items[i] == Some(values[i])
    ensures Present(items) == values
  {
    if items != [] {
      AllPresent(items[..|items| - 1], values[..|items| - 1]);
    }
  }

  lemma {:induction false} BlankHasNoWords(text: string)
    requires Blank(text)
    ensures Words(text) == []
    decreases |text|
  {
    if text != "" {
      assert forall i | 0 <= i < |text[1..]| :: text[1..][i] == text[i + 1];
      BlankHasNoWords(text[1..]);
    }
  }

  lemma SpellingReadsBack(text: string, p: Declared)
    requires ValidDeclared(p) && Spells(text, p)
    ensures ReadsAs(text, ReadAs(p)) && !Blank(text)
  {
    DeclarationReadsBack(p);
    if Blank(text) {
      BlankHasNoWords(text);
    }
  }

  /** `chunks` spell the declarations `ps`, and none is split by `separator`. */
  predicate SpelledWith(separator: char, chunks: seq<string>, ps: seq<Declared>) {
    && |chunks| == |ps|
    && forall i | 0 <= i < |ps| :: ValidDeclared(ps[i]) && Spells(chunks[i], ps[i]) && Whole(separator, chunks[i])
  }

  lemma AllReadBack(separator: char, chunks: seq<string>, ps: seq<Declared>)
    requires SpelledWith(separator, chunks, ps)
    ensures Parameters(chunks) == ReadAll(ps)
    ensures chunks != [] ==> !Blank(chunks[|chunks| - 1])
  {
    forall i | 0 <= i < |ps| ensures ReadsAs(chunks[i], ReadAll(ps)[i]) && !Blank(chunks[i]) {
      SpellingReadsBack(chunks[i], ps[i]);
    }
    AllPresent(ReadChunks(chunks), ReadAll(ps));
  }

  /** Declarations written with commas between them are read back, one by one. */
  lemma ListReadsBack(chunks: seq<string>, ps: seq<Declared>)
    requires SpelledWith(',', chunks, ps)
    ensures Parameters(Split(Join(chunks, ','), ',')) == ReadAll(ps)
  {
    AllReadBack(',', chunks, ps);
    JoiningIsUndone(chunks, ',');
  }

  /** Each part followed by the separator. */
  function Ended(parts: seq<string>, separator: char): string {
    if parts == [] then "" else parts[0] + [separator] + Ended(parts[1..], separator)
  }

  lemma {:induction false} EndingIsUndone(parts: seq<string>, separator: char, tail: string)
    requires separator !in ROUND_AND_SQUARE.opens + ROUND_AND_SQUARE.closes
    requires forall i | 0 <= i < |parts| :: Whole(separator, parts[i])
    requires Whole(separator, tail) && Blank(tail)
    ensures Split(Ended(parts, separator) + tail, separator) == parts
  {
    if parts == [] {
      SplitLast(tail, separator);
      assert "" + tail == tail;
    } else {
      var rest := Ended(parts[1..], separator);
      EndingIsUndone(parts[1..], separator, tail);
      SplitFirst(parts[0], separator, rest + tail);
      assert parts[0] + [separator] + rest + tail == parts[0] + [separator] + (rest + tail);
    }
  }

  /** The fields of a struct, each ended by a semicolon, are read back: the body is cut at its
      semicolons, joined with commas, and read as a parameter list. */
  lemma StructBodyReadsBack(chunks: seq<string>, ps: seq<Declared>, tail: string)
    requires SpelledWith(';', chunks, ps) && SpelledWith(',', chunks, ps) && Whole(';', tail) && Blank(tail)
    ensures Parameters(Split(Join(Split(Ended(chunks, ';') + tail, ';'), ','), ',')) == ReadAll(ps)
  {
    EndingIsUndone(chunks, ';', tail);
    ListReadsBack(chunks, ps);
  }

  // ---------------------------------------------------------------------------
  // What reading does to types
  // ---------------------------------------------------------------------------

  lemma WideningTwice(raw: string)
    ensures BaseElementaryType(BaseElementaryType(raw)) == BaseElementaryType(raw)
  {
    var base, suffix := BaseOf(raw), SuffixOf(raw);
    if base == "uint" || base == "int" {
      var wide := base + "256";
      assert wide == "uint256" || wide == "int256";
      ElementaryIsPlain(wide);
      PlainHasNoSuffix(wide);
      if suffix != "" {
        LastDimensionIsOne(suffix);
      }
      BaseAndSuffix(wide, LastDimension(suffix));
    }
  }

  /** The widening of bare integers that reading does is not seen: canonicalizing does it anyway,
      and doing it twice changes nothing. */
  lemma ReadingKeepsCanonicalType(raw: string, r: Registry)
    ensures BaseElementaryType(BaseElementaryType(raw)) == BaseElementaryType(raw)
    ensures CanonicalType(BaseElementaryType(raw), r) == CanonicalType(raw, r)
  {
    WideningTwice(raw);
    if BaseOf(raw) == "uint" || BaseOf(raw) == "int" {
      BareIntegerCanonical(BaseOf(raw), SuffixOf(raw), r);
      assert BaseOf(raw) + SuffixOf(raw) == raw;
      assert CanonicalType(raw, r).Canonical?;
    }
  }

  lemma {:induction false} SameTypesCanonicalAlike(a: seq<RawParameter>, b: seq<RawParameter>, r: Registry)
    requires |a| == |b|
    requires forall i | 0 <= i < |a| :: CanonicalType(a[i].rawType, r) == CanonicalType(b[i].rawType, r)
    ensures CanonicalizeAll(a, r, []) == CanonicalizeAll(b, r, [])
  {
    if a != [] {
      assert CanonicalType(a[0].rawType, r) == CanonicalType(b[0].rawType, r);
      SameTypesCanonicalAlike(a[1..], b[1..], r);
    }
  }

  function BareTypes(ps: seq<Declared>): (r: seq<RawParameter>)
    ensures |r| == |ps| && forall i | 0 <= i < |ps| :: r[i].rawType == ps[i].rawType
  {
    seq(|ps|, i requires 0 <= i < |ps| => RawParameter("", ps[i].rawType, false))
  }

  /** From text to signature: an entry's signature is made of its name and the types as declared;
      parameter names, modifiers, indexed flags and spacing never show. */
  lemma SignatureOfDeclaration(name: string, chunks: seq<string>, ps: seq<Declared>, r: Registry)
    requires SpelledWith(',', chunks, ps)
    ensures EntrySignature(RawEntry(name, Parameters(Split(Join(chunks, ','), ','))), r) ==
            EntrySignature(RawEntry(name, BareTypes(ps)), r)
  {
    ListReadsBack(chunks, ps);
    var a, b := ReadAll(ps), BareTypes(ps);
    forall i | 0 <= i < |ps| ensures CanonicalType(a[i].rawType, r) == CanonicalType(b[i].rawType, r) {
      ReadingKeepsCanonicalType(ps[i].rawType, r);
    }
    SameTypesCanonicalAlike(a, b, r);
  }

  // ---------------------------------------------------------------------------
  // Words
  // ---------------------------------------------------------------------------

  lemma {:induction false} WordSkips(word: string, rest: string, current: string)
    requires forall i | 0 <= i < |word| :: !IsSpace(word[i])
    ensures WordsFrom(word + rest, current) == WordsFrom(rest, current + word)
    decreases |word|
  {
    if word == "" {
      assert word + rest == rest && current + word == current;
    } else {
      assert (word + rest)[1..] == word[1..] + rest;
      assert current + word == current + [word[0]] + word[1..];
      WordSkips(word[1..], rest, current + [word[0]]);
    }
  }

  /** Words with one space between them are read back as those words. */
  lemma {:induction false} WordsReadBack(words: seq<string>)
    requires forall w | w in words :: Word(w)
    ensures Words(Join(words, ' ')) == words
  {
    if words != [] {
      assert Word(words[0]);
      if |words| == 1 {
        WordSkips(words[0], "", "");
        assert words[0] + "" == words[0] && "" + words[0] == words[0];
      } else {
        var rest := Join(words[1..], ' ');
        WordsReadBack(words[1..]);
        WordSkips(words[0], " " + rest, "");
        assert words[0] + " " + rest == words[0] + (" " + rest);
        assert (" " + rest)[1..] == rest && "" + words[0] == words[0];
      }
    }
  }

  /** So every valid declaration has a spelling: its words with a space between them. */
  lemma EveryDeclarationIsSpelled(p: Declared)
    requires ValidDeclared(p)
    ensures Spells(Written(p), p)
  {
    WordsReadBack(WordsOf(p));
  }

  /** A declaration written with single spaces. */
  function Written(p: Declared): string {
    Join(WordsOf(p), ' ')
  }

  function AllWritten(ps: seq<Declared>): seq<string> {
    Mapped(Written, ps)
  }

  /** Writing declarations out and reading them back gives them back. */
  lemma WrittenListReadsBack(ps: seq<Declared>)
    requires forall p | p in ps :: ValidDeclared(p) && Whole(',', Written(p))
    ensures Parameters(Split(Join(AllWritten(ps), ','), ',')) == ReadAll(ps)
  {
    hide ValidDeclared, Spells, Whole, Written;
    forall i | 0 <= i < |ps|
      ensures ValidDeclared(ps[i]) && Spells(AllWritten(ps)[i], ps[i]) && Whole(',', AllWritten(ps)[i])
    {
      assert ps[i] in ps;
      EveryDeclarationIsSpelled(ps[i]);
    }
    ListReadsBack(AllWritten(ps), ps);
  }

  /** Words with gaps around them: `gaps[0]` before the first, `gaps[|words|]` behind the last. */
  function Spaced(words: seq<string>, gaps: seq<string>): string
    requires |gaps| == |words| + 1
  {
    if words == [] then gaps[0] else gaps[0] + words[0] + Spaced(words[1..], gaps[1..])
  }

  /** Whatever spaces stand between and around them, newlines included, words are read back. */
  lemma {:induction false} SpacedWordsReadBack(words: seq<string>, gaps: seq<string>)
    requires |gaps| == |words| + 1
    requires forall w | w in words :: Word(w)
    requires forall i | 0 <= i < |gaps| :: Blank(gaps[i])
    requires forall i | 0 < i < |words| :: gaps[i] != ""
    ensures Words(Spaced(words, gaps)) == words
  {
    if words == [] {
      BlankHasNoWords(gaps[0]);
    } else {
      assert Word(words[0]);
      var rest := Spaced(words[1..], gaps[1..]);
      SpacedWordsReadBack(words[1..], gaps[1..]);
      GapSkips(gaps[0], words[0] + rest);
      WordSkips(words[0], rest, "");
      assert gaps[0] + words[0] + rest == gaps[0] + (words[0] + rest) && "" + words[0] == words[0];
      if |words| == 1 {
        assert rest == gaps[1];
        WordEnds(words[0], rest);
      } else {
        assert rest == gaps[1] + words[1] + Spaced(words[2..], gaps[2..]);
        WordEnds(words[0], rest);
      }
    }
  }

  lemma {:induction false} GapSkips(gap: string, rest: string)
    requires Blank(gap)
    ensures WordsFrom(gap + rest, "") == WordsFrom(rest, "")
    decreases |gap|
  {
    if gap == "" {
      assert gap + rest == rest;
    } else {
      assert (gap + rest)[1..] == gap[1..] + rest;
      assert forall i | 0 <= i < |gap[1..]| :: gap[1..][i] == gap[i + 1];
      GapSkips(gap[1..], rest);
    }
  }

  lemma WordEnds(word: string, rest: string)
    requires word != "" && (rest != "" ==> IsSpace(rest[0]))
    ensures WordsFrom(rest, word) == [word] + WordsFrom(rest, "")
  {
  }

  /** The words that are skipped, exactly. */
  lemma SkippedExactly(word: string)
    ensures TellingWords([word]) == [] <==>
            word == "indexed" || word == "memory" || word == "calldata" || word == "storage" || word == "payable"
  {
    TellingOne(word);
  }

  lemma {:induction false} TellingOrder(words: seq<string>, first: nat, last: nat)
    requires first < last < |words| && Telling(words[first]) && Telling(words[last])
    requires forall i | 0 <= i < first || last < i < |words| :: !Telling(words[i])
    ensures var telling := TellingWords(words);
            |telling| > 1 && telling[0] == words[first] && telling[|telling| - 1] == words[last]
  {
    hide Telling, TellingWords;
    var head, inner, tail := words[..first], words[first + 1..last], words[last + 1..];
    assert words == head + [words[first]] + inner + [words[last]] + tail;
    NothingTelling(head);
    NothingTelling(tail);
    TellingAppend(head + [words[first]] + inner + [words[last]], tail);
    TellingAppend(head + [words[first]] + inner, [words[last]]);
    TellingAppend(head + [words[first]], inner);
    TellingAppend(head, [words[first]]);
    TellingOne(words[first]);
    TellingOne(words[last]);
  }

  /** Of any words, however many, the first that is not skipped is the type and the last the name. */
  lemma FirstAndLastWord(words: seq<string>, first: nat, last: nat)
    requires first <= last < |words| && Telling(words[first]) && Telling(words[last])
    requires forall i | 0 <= i < first || last < i < |words| :: !Telling(words[i])
    requires first == last ==> forall i | 0 <= i < |words| && i != first :: !Telling(words[i])
    ensures ParameterOf(words) == Some(RawParameter(if first < last then words[last] else "",
                                                    BaseElementaryType(words[first]), "indexed" in words))
  {
    if first < last {
      TellingOrder(words, first, last);
    } else {
      assert words == words[..first] + [words[first]] + words[first + 1..];
      NothingTelling(words[..first]);
      NothingTelling(words[first + 1..]);
      TellingAppend(words[..first] + [words[first]], words[first + 1..]);
      TellingAppend(words[..first], [words[first]]);
      TellingOne(words[first]);
    }
  }
}
