/** The regular expression on Content-Disposition lines, and which items it reads back as they were
    printed. */
module MultipartDisposition {
  import opened Wrappers
  import opened Text
  import opened Multipart
  import opened MultipartSplit
  import opened MultipartRoundTrip

  /** \s, and what the dot does not match. */
  predicate IsSpace(ch: char) { ch == ' ' || 9 <= ch as int <= 13 }
  predicate IsNewLine(ch: char) { ch == '\n' || ch == '\r' }

  /** `word` stands at `i`, in whatever case. */
  predicate WordAt(s: string, i: nat, word: string) {
    i + |word| <= |s| && forall k | 0 <= k < |word| :: Lower(s[i + k]) == Lower(word[k])
  }

  function SkipSpaces(s: string, i: nat): (j: nat)
    ensures j >= i
    decreases |s| - i
  {
    if i < |s| && IsSpace(s[i]) then SkipSpaces(s, i + 1) else i
  }

  function SkipWord(s: string, i: nat): (j: nat)
    ensures j >= i
    decreases |s| - i
  {
    if i < |s| && !IsSpace(s[i]) then SkipWord(s, i + 1) else i
  }

  const FILENAME := "filename=\""
  const EXTENDED := "filename*="

  /** (?:;\s*filename\*=\S+)?\s*$ */
  predicate EndsAt(s: string, i: nat) {
    SkipSpaces(s, i) == |s| || ExtendedAt(s, i)
  }

  predicate ExtendedAt(s: string, i: nat) {
    WordAt(s, i, ";") &&
    var j := SkipSpaces(s, i + 1);
    WordAt(s, j, EXTENDED) &&
    var v := j + |EXTENDED|;
    SkipWord(s, v) > v && SkipSpaces(s, SkipWord(s, v)) == |s|
  }

  /** The first quotation mark from `j` on behind which the line may end, with no line end before it. */
  function FileEnd(s: string, j: nat): Option<nat>
    decreases |s| - j
  {
    if j >= |s| then None
    else if s[j] == '"' && EndsAt(s, j + 1) then Some(j)
    else if IsNewLine(s[j]) then None
    else FileEnd(s, j + 1)
  }

  /** ;\s*filename="(.*?)" and the end of the line. */
  function FileAt(s: string, i: nat): Option<string> {
    if !WordAt(s, i, ";") then None
    else
      var j := SkipSpaces(s, i + 1);
      if !WordAt(s, j, FILENAME) then None
      else
        match FileEnd(s, j + |FILENAME|)
        case Some(e) => if j + |FILENAME| <= e <= |s| then Some(s[j + |FILENAME|..e]) else None
        case None => None
  }

  /** What may follow the name: the file name in it, empty if there is none. */
  function TailAt(s: string, i: nat): Option<string> {
    if FileAt(s, i).Some? then FileAt(s, i) else if EndsAt(s, i) then Some("") else None
  }

  /** The first quotation mark from `j` on behind which the rest matches. */
  function NameEnd(s: string, j: nat): Option<nat>
    decreases |s| - j
  {
    if j >= |s| then None
    else if s[j] == '"' && TailAt(s, j + 1).Some? then Some(j)
    else if IsNewLine(s[j]) then None
    else NameEnd(s, j + 1)
  }

  function NameAt(s: string, k: nat): Option<(string, string)> {
    match NameEnd(s, k)
    case Some(e) => if k <= e < |s| && TailAt(s, e + 1).Some? then Some((s[k..e], TailAt(s, e + 1).value)) else None
    case None => None
  }

  /** regex_match of the whole line: the name and the file name. */
  function Disposition(s: string): Option<(string, string)> {
    if !WordAt(s, 0, "Content-Disposition:") then None
    else
      var a := SkipSpaces(s, |"Content-Disposition:"|);
      if !WordAt(s, a, "form-data;") then None
      else
        var b := SkipSpaces(s, a + |"form-data;"|);
        if !WordAt(s, b, "name=\"") then None else NameAt(s, b + |"name=\""|)
  }

  // ----- printed lines -----

  lemma WordIs(a: string, word: string, b: string)
    ensures WordAt(a + (word + b), |a|, word)
  {
    var s := a + (word + b);
    assert forall k | 0 <= k < |word| :: s[|a| + k] == word[k];
  }

  lemma OneSpace(s: string, i: nat)
    requires i + 1 < |s| && s[i] == ' ' && !IsSpace(s[i + 1])
    ensures SkipSpaces(s, i) == i + 1
  {
    assert SkipSpaces(s, i + 1) == i + 1;
  }

  /** The fixed front of a printed line is read. */
  lemma FrontRead(rest: string)
    ensures Disposition(DISPOSITION + rest) == NameAt(DISPOSITION + rest, |DISPOSITION|)
  {
    var h1, h2, h3 := "Content-Disposition:", "form-data;", "name=\"";
    var s := DISPOSITION + rest;
    Front(h1, " ", h2, " ", h3, rest);
    assert s == h1 + (" " + (h2 + (" " + (h3 + rest))));
    WordIs("", h1, " " + (h2 + (" " + (h3 + rest))));
    assert "" + s == s;
    FrontGap(s, h1, h2, " " + (h3 + rest));
    var p := h1 + " " + h2;
    Assoc(h1 + " ", h2, " " + (h3 + rest));
    Assoc(h1, " ", h2 + (" " + (h3 + rest)));
    FrontGap(s, p, h3, rest);
  }

  lemma Front(a: string, b: string, c: string, d: string, e: string, r: string)
    ensures a + (b + (c + (d + e))) + r == a + (b + (c + (d + (e + r))))
  {
  }

  /** A word after one blank. */
  lemma FrontGap(s: string, p: string, word: string, r: string)
    requires s == p + (" " + (word + r)) && word != "" && !IsSpace(word[0])
    ensures SkipSpaces(s, |p|) == |p| + 1 && WordAt(s, |p| + 1, word)
  {
    assert s[|p|] == ' ' && s[|p| + 1] == word[0];
    OneSpace(s, |p|);
    assert s == (p + " ") + (word + r);
    WordIs(p + " ", word, r);
  }

  /** No position from `k` to `e` ends the name early. */
  ghost predicate NameClear(s: string, k: nat, e: nat)
    requires e <= |s|
  {
    forall j | k <= j < e :: !IsNewLine(s[j]) && !(s[j] == '"' && TailAt(s, j + 1).Some?)
  }

  ghost predicate FileClear(s: string, f: nat, e: nat)
    requires e <= |s|
  {
    forall j | f <= j < e :: !IsNewLine(s[j]) && !(s[j] == '"' && EndsAt(s, j + 1))
  }

  lemma {:induction false} NameEndIs(s: string, j: nat, e: nat)
    requires j <= e < |s| && s[e] == '"'
    ensures NameEnd(s, j) == Some(e) <==> NameClear(s, j, e) && TailAt(s, e + 1).Some?
    ensures NameEnd(s, j).Some? ==> j <= NameEnd(s, j).value < |s| && TailAt(s, NameEnd(s, j).value + 1).Some?
    decreases e - j
  {
    if j < e {
      NameEndIs(s, j + 1, e);
      assert NameClear(s, j, e) <==>
             !IsNewLine(s[j]) && !(s[j] == '"' && TailAt(s, j + 1).Some?) && NameClear(s, j + 1, e);
    } else {
      NameEndIn(s, j);
    }
  }

  lemma {:induction false} NameEndIn(s: string, j: nat)
    ensures NameEnd(s, j).Some? ==> j <= NameEnd(s, j).value < |s| && TailAt(s, NameEnd(s, j).value + 1).Some?
    decreases |s| - j
  {
    if j < |s| { NameEndIn(s, j + 1); }
  }

  lemma {:induction false} FileEndIs(s: string, j: nat, e: nat)
    requires j <= e < |s| && s[e] == '"'
    ensures FileEnd(s, j) == Some(e) <==> FileClear(s, j, e) && EndsAt(s, e + 1)
    decreases e - j
  {
    if j < e {
      FileEndIs(s, j + 1, e);
      FileEndIn(s, j + 1);
      assert FileClear(s, j, e) <==>
             !IsNewLine(s[j]) && !(s[j] == '"' && EndsAt(s, j + 1)) && FileClear(s, j + 1, e);
    } else {
      FileEndIn(s, j + 1);
    }
  }

  lemma {:induction false} FileEndIn(s: string, j: nat)
    ensures FileEnd(s, j).Some? ==> j <= FileEnd(s, j).value < |s|
    decreases |s| - j
  {
    if j < |s| { FileEndIn(s, j + 1); }
  }

  /** The file name part of a printed line, at `i`. */
  lemma FileRead(s: string, p: string, filename: string)
    requires filename != "" && s == p + (FILE_FIELD + (filename + "\""))
    ensures var f := |p| + |FILE_FIELD|;
            TailAt(s, |p|) == Some(filename) <==> FileClear(s, f, |s| - 1)
  {
    var f, e, rest := |p| + |FILE_FIELD|, |s| - 1, filename + "\"";
    FileFront(s, p, rest);
    assert s[f..] == rest && s[e] == '"';
    FileEndIs(s, f, e);
    FileEndIn(s, f);
    assert SkipSpaces(s, e + 1) == |s|;
    assert s[f..e] == filename;
    if FileEnd(s, f).Some? {
      assert |s[f..FileEnd(s, f).value]| == FileEnd(s, f).value - f;
    }
  }

  lemma FileFront(s: string, p: string, rest: string)
    requires s == p + (FILE_FIELD + rest)
    ensures WordAt(s, |p|, ";") && SkipSpaces(s, |p| + 1) == |p| + 2 && WordAt(s, |p| + 2, FILENAME)
    ensures !EndsAt(s, |p|) && |FILE_FIELD| == 2 + |FILENAME|
  {
    Assoc(";", " " + FILENAME, rest);
    Assoc(" ", FILENAME, rest);
    WordIs(p, ";", " " + (FILENAME + rest));
    Assoc(p, ";", " " + (FILENAME + rest));
    FrontGap(s, p + ";", FILENAME, rest);
    assert s[|p|] == ';' && s[|p| + 2 + 8] == FILENAME[8];
    assert EXTENDED[8] == '*' && Lower('*') == '*' && Lower('=') == '=';
  }

  /** Neither the name nor the file name holds a line end, or a quotation mark behind which the rest of
      the printed line would already match. */
  ghost predicate ReadsBack(item: Item) {
    var s, k := DispositionLine(item), |DISPOSITION|;
    && NameClear(s, k, k + |item.name|)
    && (item.filename != "" ==> FileClear(s, k + |item.name| + 1 + |FILE_FIELD|, |s| - 1))
  }

  /** The parts of a printed line. */
  lemma LineParts(item: Item)
    ensures var s, e := DispositionLine(item), |DISPOSITION| + |item.name|;
            && e < |s| && s[e] == '"' && s[|DISPOSITION|..e] == item.name
            && s == DISPOSITION + s[|DISPOSITION|..]
            && (item.filename == "" ==> |s| == e + 1)
            && (item.filename != "" ==> s == s[..e + 1] + (FILE_FIELD + (item.filename + "\"")))
  {
    var s, head := DispositionLine(item), DISPOSITION + item.name;
    var last := if item.filename != "" then FILE_FIELD + item.filename + "\"" else "";
    assert s == head + "\"" + last;
    assert s[..|head| + 1] == head + "\"";
    if item.filename != "" { Assoc(FILE_FIELD, item.filename, "\""); }
  }

  lemma TailRead(item: Item)
    ensures var s, e := DispositionLine(item), |DISPOSITION| + |item.name|;
            TailAt(s, e + 1) == Some(item.filename)
            <==> (item.filename != "" ==> FileClear(s, e + 1 + |FILE_FIELD|, |s| - 1))
  {
    LineParts(item);
    var s, e := DispositionLine(item), |DISPOSITION| + |item.name|;
    if item.filename != "" {
      FileRead(s, s[..e + 1], item.filename);
    } else {
      assert SkipSpaces(s, |s|) == |s|;
    }
  }

  /** The expression reads a printed line back if and only if that is the case. */
  lemma PrintedLineRead(item: Item)
    ensures Disposition(DispositionLine(item)) == Some((item.name, item.filename)) <==> ReadsBack(item)
  {
    LineParts(item);
    TailRead(item);
    var s, k := DispositionLine(item), |DISPOSITION|;
    FrontRead(s[k..]);
    NameRead(s, k, k + |item.name|, item.name, item.filename);
  }

  lemma NameRead(s: string, k: nat, e: nat, name: string, filename: string)
    requires k <= e < |s| && s[e] == '"' && s[k..e] == name
    ensures NameAt(s, k) == Some((name, filename)) <==> NameClear(s, k, e) && TailAt(s, e + 1) == Some(filename)
  {
    NameEndIs(s, k, e);
    if NameEnd(s, k).Some? {
      var x := NameEnd(s, k).value;
      assert |s[k..x]| == x - k && |name| == e - k;
    }
  }

  predicate PlainName(name: string) { forall i | 0 <= i < |name| :: name[i] != '"' && !IsNewLine(name[i]) }

  /** Names without quotation marks and line ends do read back. */
  lemma PlainNamesReadBack(item: Item)
    requires PlainName(item.name) && PlainName(item.filename)
    ensures ReadsBack(item)
  {
    LineParts(item);
    var s, k := DispositionLine(item), |DISPOSITION|;
    SamePlace(s, k, item.name);
    if item.filename != "" {
      var f := k + |item.name| + 1 + |FILE_FIELD|;
      assert s[f..f + |item.filename|] == item.filename;
      SamePlace(s, f, item.filename);
    }
  }

  lemma SamePlace(s: string, k: nat, name: string)
    requires k + |name| <= |s| && s[k..k + |name|] == name && PlainName(name)
    ensures forall j | k <= j < k + |name| :: s[j] != '"' && !IsNewLine(s[j])
  {
    assert forall j | k <= j < k + |name| :: s[j] == s[k..k + |name|][j - k];
  }

  /** A part is announced as it was given if and only if its names read back and its content type has no
      blanks at its ends. */
  lemma AnnouncedExact(c: Config, item: Item)
    requires c.disposition == Disposition
    ensures Announced(c, item) == FileInfo(item.name, item.filename, item.contentType)
       <==> ReadsBack(item) && Untrimmable(item.contentType)
  {
    PrintedLineRead(item);
    AnnouncedFields(c, item);
    if item.name == "" && item.filename == "" { EmptyNamesReadBack(item); }
  }

  lemma EmptyNamesReadBack(item: Item)
    requires item.name == "" && item.filename == ""
    ensures ReadsBack(item)
  {
  }

  function Given(items: seq<Item>): seq<FileInfo> {
    if items == [] then []
    else [FileInfo(items[0].name, items[0].filename, items[0].contentType)] + Given(items[1..])
  }

  lemma {:induction false} OneEach(items: seq<Item>)
    ensures |Given(items)| == |items|
  {
    if items != [] { OneEach(items[1..]); }
  }

  /** The items as the application sees them. */
  function AsGiven(items: seq<Item>): seq<Event> {
    OneEach(items);
    DeliveredAs(Given(items), items)
  }

  lemma AsGivenIs(items: seq<Item>)
    requires items != []
    ensures AsGiven(items) == [Head(FileInfo(items[0].name, items[0].filename, items[0].contentType))]
                              + DataEvents(items[0].content) + AsGiven(items[1..])
  {
    OneEach(items);
    assert Given(items)[1..] == Given(items[1..]);
  }

  ghost predicate AllReadBack(items: seq<Item>) {
    forall i | 0 <= i < |items| :: ReadsBack(items[i]) && Untrimmable(items[i].contentType)
  }

  lemma AllReadBackCons(items: seq<Item>)
    requires items != []
    ensures AllReadBack(items)
       <==> ReadsBack(items[0]) && Untrimmable(items[0].contentType) && AllReadBack(items[1..])
  {
    assert items == [items[0]] + items[1..];
  }

  lemma {:induction false} DeliveredExact(c: Config, items: seq<Item>)
    requires c.disposition == Disposition
    ensures Delivered(c, items) == AsGiven(items) <==> AllReadBack(items)
  {
    if items != [] {
      var item, rest := items[0], items[1..];
      DeliveredExact(c, rest);
      AnnouncedExact(c, item);
      AllReadBackCons(items);
      AsGivenIs(items);
      SameParts(Head(Announced(c, item)), Head(FileInfo(item.name, item.filename, item.contentType)),
                DataEvents(item.content), Delivered(c, rest), AsGiven(rest));
    }
  }

  lemma SameParts(h: Event, g: Event, data: seq<Event>, x: seq<Event>, y: seq<Event>)
    ensures [h] + data + x == [g] + data + y <==> h == g && x == y
  {
    var a, b := [h] + data + x, [g] + data + y;
    assert a[0] == h && b[0] == g && a[1 + |data|..] == x && b[1 + |data|..] == y;
  }

  /** With that expression parsing gives the application back the very items that were serialized if and
      only if all names read back, no content type has blanks at its ends, and no content holds the
      delimiter. */
  lemma ItemsComeBack(c: Config, items: seq<Item>)
    requires Accepting(c) && Printable(c, items) && c.disposition == Disposition
    ensures Parse(c, INITIAL, Serialized(c.boundary, items)).1.out == AsGiven(items)
       <==> AllReadBack(items) && AllUnambiguous(c, items)
  {
    if AllUnambiguous(c, items) {
      DeliveredExact(c, items);
      RoundTripExact(c, items);
    } else {
      OneEach(items);
      AmbiguousLost(c, items, Given(items));
    }
  }
}
