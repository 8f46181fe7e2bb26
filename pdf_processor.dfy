/** The knowledge-graph data builder of src/python/pdf_processor.py: the text
    cleaner `clean_text` and `build_knowledge_graph_data`, which turns a list of
    PDF file names into parallel lists of document records and graph nodes.
    Reading a PDF (pdfplumber) is an oracle passed in as a function. */
module PdfProcessor {
  import opened Wrappers

  // ---------------------------------------------------------------------------
  // clean_text: re.sub(r'\s+', ' ', text).strip()
  // ---------------------------------------------------------------------------

  /** The characters Python's `\s` matches in a str pattern; `str.strip()` with
      no argument removes exactly the same set (those for which `str.isspace()`
      holds). */
  predicate IsSpace(c: char) {
    ('\U{0009}' <= c <= '\U{000D}') || ('\U{001C}' <= c <= '\U{001F}') || c == ' '
    || c == '\U{0085}' || c == '\U{00A0}' || c == '\U{1680}'
    || ('\U{2000}' <= c <= '\U{200A}') || c == '\U{2028}' || c == '\U{2029}'
    || c == '\U{202F}' || c == '\U{205F}' || c == '\U{3000}'
  }

  /** Drops the leading whitespace of `s` (also Python's `lstrip()`). */
  function DropSpaces(s: string): (r: string)
    ensures |r| <= |s| && r == s[|s| - |r|..]
    ensures r == [] || !IsSpace(r[0])
    ensures forall i :: 0 <= i < |s| - |r| ==> IsSpace(s[i])
  {
    if s != [] && IsSpace(s[0]) then DropSpaces(s[1..]) else s
  }

  /** `re.sub(r'\s+', ' ', s)`: the regex scans left to right and its greedy
      match takes a whole run of whitespace, which becomes one blank. */
  function Squeeze(s: string): string
    decreases |s|
  {
    if s == [] then []
    else if IsSpace(s[0]) then [' '] + Squeeze(DropSpaces(s[1..]))
    else [s[0]] + Squeeze(s[1..])
  }

  /** Drops the trailing whitespace of `s` (also Python's `rstrip()`). */
  function StripRight(s: string): (r: string)
    ensures |r| <= |s| && r == s[..|r|]
    ensures r == [] || !IsSpace(r[|r| - 1])
    ensures forall i :: |r| <= i < |s| ==> IsSpace(s[i])
  {
    if s != [] && IsSpace(s[|s| - 1]) then StripRight(s[..|s| - 1]) else s
  }

  /** Python's `str.strip()`. */
  function Strip(s: string): string {
    StripRight(DropSpaces(s))
  }

  /** The non-whitespace characters of `s`, in order. */
  function NonSpace(s: string): string {
    if s == [] then []
    else if IsSpace(s[0]) then NonSpace(s[1..])
    else [s[0]] + NonSpace(s[1..])
  }

  /** A cleaned string: no whitespace at either end, every whitespace character
      is a plain blank, and no two whitespace characters are adjacent. */
  ghost predicate IsClean(r: string) {
    (r != [] ==> !IsSpace(r[0]) && !IsSpace(r[|r| - 1]))
    && (forall i :: 0 <= i < |r| && IsSpace(r[i]) ==> r[i] == ' ')
    && (forall i :: 0 <= i < |r| - 1 ==> !IsSpace(r[i]) || !IsSpace(r[i + 1]))
  }

  /** `clean_text(text)`; `None` models Python's `None`. */
  function CleanText(text: Option<string>): (r: string)
    ensures text.None? ==> r == ""
    ensures text.Some? ==> IsClean(r) && NonSpace(r) == NonSpace(text.value)
  {
    if text.None? then ""
    else
      CleanTextIsJoinedWords(text.value);
      JoinedWordsAreClean(Words(text.value));
      NonSpaceOfSqueeze(text.value);
      NonSpaceOfStrip(Squeeze(text.value));
      Strip(Squeeze(text.value))
  }

  // ---------------------------------------------------------------------------
  // A reference definition: the words of a string, joined by single blanks
  // ---------------------------------------------------------------------------

  /** A word: a non-empty run of non-whitespace characters. */
  ghost predicate IsWord(w: string) {
    w != [] && forall i :: 0 <= i < |w| ==> !IsSpace(w[i])
  }

  /** The longest prefix of `s` without whitespace. */
  function TakeWord(s: string): (w: string)
    ensures |w| <= |s| && w == s[..|w|]
    ensures forall i :: 0 <= i < |w| ==> !IsSpace(w[i])
    ensures |w| < |s| ==> IsSpace(s[|w|])
    ensures s != [] && !IsSpace(s[0]) ==> w != []
  {
    if s == [] || IsSpace(s[0]) then [] else [s[0]] + TakeWord(s[1..])
  }

  /** The maximal runs of non-whitespace characters of `s`, in order. */
  function Words(s: string): (ws: seq<string>)
    ensures forall i :: 0 <= i < |ws| ==> IsWord(ws[i])
    decreases |s|
  {
    var t := DropSpaces(s);
    if t == [] then []
    else
      var w := TakeWord(t);
      assert IsWord(w);
      var ws := Words(t[|w|..]);
      [w] + ws
  }

  /** `clean_text` keeps the words of its input and separates consecutive words
      by exactly one blank: every maximal whitespace run between two words
      becomes a single space, and runs at either end disappear. */
  lemma {:induction false} CleanTextIsJoinedWords(s: string)
    ensures Strip(Squeeze(s)) == Join(Words(s), " ")
  {
    var t := DropSpaces(s);
    DropSpacesOfSqueeze(s);
    WordsAfterDropSpaces(s);
    StripRightSqueezeOfWordStart(t);
  }

  /** Words of a joined list of words are that list: the two are inverse. */
  lemma {:induction false} WordsOfJoin(ws: seq<string>)
    requires forall i :: 0 <= i < |ws| ==> IsWord(ws[i])
    ensures Words(Join(ws, " ")) == ws
    decreases |ws|
  {
    if |ws| == 0 {
    } else if |ws| == 1 {
      var w := ws[0];
      TakeWordOfWord(w, []);
      assert w + [] == w;
      assert w[|w|..] == [];
    } else {
      var w, rest := ws[0], Join(ws[1..], " ");
      var j := w + " " + rest;
      assert j == w + (" " + rest);
      TakeWordOfWord(w, " " + rest);
      assert j[|w|..] == " " + rest;
      WordsOfJoin(ws[1..]);
      assert rest[..|ws[1]|] == ws[1];
      assert DropSpaces(" " + rest) == DropSpaces(rest);
      assert Words(" " + rest) == Words(rest);
    }
  }

  /** Joining words with single blanks yields a cleaned string. */
  lemma {:induction false} JoinedWordsAreClean(ws: seq<string>)
    requires forall i :: 0 <= i < |ws| ==> IsWord(ws[i])
    ensures IsClean(Join(ws, " "))
    decreases |ws|
  {
    if |ws| >= 2 {
      var w, rest := ws[0], Join(ws[1..], " ");
      JoinedWordsAreClean(ws[1..]);
      assert rest[..|ws[1]|] == ws[1];
      var j := w + " " + rest;
      assert forall i :: 0 <= i < |j| && IsSpace(j[i]) ==> j[i] == ' ' by {
        forall i | 0 <= i < |j| && IsSpace(j[i]) ensures j[i] == ' ' {
          if i > |w| { assert j[i] == rest[i - |w| - 1]; }
        }
      }
      assert forall i :: 0 <= i < |j| - 1 ==> !IsSpace(j[i]) || !IsSpace(j[i + 1]) by {
        forall i | 0 <= i < |j| - 1 ensures !IsSpace(j[i]) || !IsSpace(j[i + 1]) {
          if i > |w| {
            assert j[i] == rest[i - |w| - 1] && j[i + 1] == rest[i - |w|];
          }
        }
      }
    }
  }

  /** `clean_text` is idempotent: cleaning a cleaned string changes nothing. */
  lemma CleanTextIdempotent(s: string)
    ensures CleanText(Some(CleanText(Some(s)))) == CleanText(Some(s))
  {
    var c := CleanText(Some(s));
    CleanTextIsJoinedWords(s);
    CleanTextIsJoinedWords(c);
    WordsOfJoin(Words(s));
  }

  /** The words survive cleaning: `clean_text` changes only whitespace. */
  lemma CleanTextKeepsWords(s: string)
    ensures Words(CleanText(Some(s))) == Words(s)
  {
    CleanTextIsJoinedWords(s);
    WordsOfJoin(Words(s));
  }

  // --- helper lemmas about the regex substitution and the strip --------------

  lemma DropSpacesIdempotent(s: string)
    ensures DropSpaces(DropSpaces(s)) == DropSpaces(s)
  {
  }

  lemma {:induction false} WordsAfterDropSpaces(s: string)
    ensures Words(DropSpaces(s)) == Words(s)
  {
    DropSpacesIdempotent(s);
  }

  /** A word followed by nothing or by whitespace is taken whole. */
  lemma {:induction false} TakeWordOfWord(w: string, u: string)
    requires forall i :: 0 <= i < |w| ==> !IsSpace(w[i])
    requires u == [] || IsSpace(u[0])
    ensures TakeWord(w + u) == w
    decreases |w|
  {
    if w == [] {
      assert w + u == u;
    } else {
      assert (w + u)[1..] == w[1..] + u;
      TakeWordOfWord(w[1..], u);
    }
  }

  /** The substitution passes a whitespace-free prefix through unchanged. */
  lemma {:induction false} SqueezeOfWordPrefix(w: string, u: string)
    requires forall i :: 0 <= i < |w| ==> !IsSpace(w[i])
    ensures Squeeze(w + u) == w + Squeeze(u)
    decreases |w|
  {
    if w == [] {
      assert w + u == u;
    } else {
      assert (w + u)[1..] == w[1..] + u;
      SqueezeOfWordPrefix(w[1..], u);
    }
  }

  lemma SqueezeStart(s: string)
    ensures s == [] <==> Squeeze(s) == []
    ensures s != [] ==> (IsSpace(s[0]) <==> IsSpace(Squeeze(s)[0]))
  {
  }

  lemma DropSpacesOfWordStart(x: string)
    requires x == [] || !IsSpace(x[0])
    ensures DropSpaces(x) == x
  {
  }

  lemma DropSpacesOfBlank(x: string)
    ensures DropSpaces([' '] + x) == DropSpaces(x)
  {
    assert ([' '] + x)[1..] == x;
  }

  lemma {:induction false} DropSpacesOfSqueeze(s: string)
    ensures DropSpaces(Squeeze(s)) == Squeeze(DropSpaces(s))
  {
    if s != [] && IsSpace(s[0]) {
      var t := DropSpaces(s[1..]);
      assert DropSpaces(s) == t;
      assert Squeeze(s) == [' '] + Squeeze(t);
      SqueezeStart(t);
      DropSpacesOfBlank(Squeeze(t));
      DropSpacesOfWordStart(Squeeze(t));
    } else {
      SqueezeStart(s);
      DropSpacesOfWordStart(s);
      DropSpacesOfWordStart(Squeeze(s));
    }
  }

  lemma {:induction false} StripRightOfConcat(a: string, b: string)
    requires StripRight(b) != []
    ensures StripRight(a + b) == a + StripRight(b)
    decreases |b|
  {
    var ab := a + b;
    if IsSpace(b[|b| - 1]) {
      assert ab[..|ab| - 1] == a + b[..|b| - 1];
      StripRightOfConcat(a, b[..|b| - 1]);
    }
  }

  lemma JoinStartsWithWord(ws: seq<string>)
    requires |ws| >= 1 && IsWord(ws[0])
    ensures Join(ws, " ") != [] && !IsSpace(Join(ws, " ")[0])
  {
    assert Join(ws, " ")[..|ws[0]|] == ws[0];
  }

  lemma SqueezeOfBlankRun(u: string)
    requires u != [] && IsSpace(u[0])
    ensures Squeeze(u) == [' '] + Squeeze(DropSpaces(u))
  {
    assert DropSpaces(u) == DropSpaces(u[1..]);
  }

  lemma WordsOfWordStart(t: string)
    requires t != [] && !IsSpace(t[0])
    ensures Words(t) == [TakeWord(t)] + Words(t[|TakeWord(t)|..])
  {
    DropSpacesOfWordStart(t);
  }

  lemma StripRightOfWord(w: string)
    requires forall i :: 0 <= i < |w| ==> !IsSpace(w[i])
    ensures StripRight(w) == w && StripRight(w + " ") == w
  {
    assert (w + " ")[..|w|] == w;
  }

  /** The heart of CleanTextIsJoinedWords, for a string that starts with a word. */
  lemma {:induction false} StripRightSqueezeOfWordStart(t: string)
    requires t == [] || !IsSpace(t[0])
    ensures StripRight(Squeeze(t)) == Join(Words(t), " ")
    decreases |t|
  {
    if t != [] {
      var w := TakeWord(t);
      var u := t[|w|..];
      assert t == w + u;
      WordsOfWordStart(t);
      SqueezeOfWordPrefix(w, u);
      StripRightOfWord(w);
      if u == [] {
        assert Squeeze(t) == w;
      } else {
        var v := DropSpaces(u);
        SqueezeOfBlankRun(u);
        WordsAfterDropSpaces(u);
        if v == [] {
          LastWord(t, w, u);
        } else {
          StripRightSqueezeOfWordStart(v);
          InnerWord(t, w, u, v);
        }
      }
    }
  }

  lemma LastWord(t: string, w: string, u: string)
    requires forall i :: 0 <= i < |w| ==> !IsSpace(w[i])
    requires u != [] && DropSpaces(u) == [] && Words(t) == [w] + Words(u)
    requires Squeeze(t) == w + Squeeze(u) && Squeeze(u) == [' '] + Squeeze(DropSpaces(u))
    ensures StripRight(Squeeze(t)) == Join(Words(t), " ")
  {
    TrailingBlank(t, w, u);
    NoMoreWords(t, w, u);
    JoinOne(t, w);
  }

  lemma TrailingBlank(t: string, w: string, u: string)
    requires DropSpaces(u) == []
    requires Squeeze(t) == w + Squeeze(u) && Squeeze(u) == [' '] + Squeeze(DropSpaces(u))
    ensures Squeeze(t) == w + " "
  {
  }

  lemma NoMoreWords(t: string, w: string, u: string)
    requires DropSpaces(u) == [] && Words(t) == [w] + Words(u)
    ensures Words(t) == [w]
  {
  }

  lemma JoinOne(t: string, w: string)
    requires forall i :: 0 <= i < |w| ==> !IsSpace(w[i])
    requires Squeeze(t) == w + " " && Words(t) == [w]
    ensures StripRight(Squeeze(t)) == Join(Words(t), " ")
  {
    StripRightOfWord(w);
  }

  lemma InnerWord(t: string, w: string, u: string, v: string)
    requires forall i :: 0 <= i < |w| ==> !IsSpace(w[i])
    requires v != [] && v == DropSpaces(u) && Words(t) == [w] + Words(u) && Words(v) == Words(u)
    requires Squeeze(t) == w + Squeeze(u) && Squeeze(u) == [' '] + Squeeze(v)
    requires StripRight(Squeeze(v)) == Join(Words(v), " ")
    ensures StripRight(Squeeze(t)) == Join(Words(t), " ")
  {
    JoinStartsWithWord(Words(v));
    JoinCons(w, Words(v));
    SqueezeConcat(t, w, u, v);
    StripRightOfConcat(w + " ", Squeeze(v));
  }

  lemma JoinCons(w: string, ws: seq<string>)
    requires ws != []
    ensures Join([w] + ws, " ") == w + " " + Join(ws, " ")
  {
    assert ([w] + ws)[1..] == ws;
  }

  lemma SqueezeConcat(t: string, w: string, u: string, v: string)
    requires Squeeze(t) == w + Squeeze(u) && Squeeze(u) == [' '] + Squeeze(v)
    ensures Squeeze(t) == (w + " ") + Squeeze(v)
  {
  }

  lemma {:induction false} NonSpaceOfConcat(a: string, b: string)
    ensures NonSpace(a + b) == NonSpace(a) + NonSpace(b)
    decreases |a|
  {
    if a == [] {
      assert a + b == b;
    } else {
      assert (a + b)[1..] == a[1..] + b;
      NonSpaceOfConcat(a[1..], b);
    }
  }

  lemma {:induction false} NonSpaceOfDropSpaces(s: string)
    ensures NonSpace(DropSpaces(s)) == NonSpace(s)
    decreases |s|
  {
    if s != [] && IsSpace(s[0]) {
      NonSpaceOfDropSpaces(s[1..]);
    }
  }

  lemma {:induction false} NonSpaceOfSqueeze(s: string)
    ensures NonSpace(Squeeze(s)) == NonSpace(s)
    decreases |s|
  {
    if s == [] {
    } else if IsSpace(s[0]) {
      var t := DropSpaces(s[1..]);
      NonSpaceOfSqueeze(t);
      NonSpaceOfDropSpaces(s[1..]);
      NonSpaceOfConcat([' '], Squeeze(t));
    } else {
      NonSpaceOfSqueeze(s[1..]);
      NonSpaceOfConcat([s[0]], Squeeze(s[1..]));
    }
  }

  lemma {:induction false} NonSpaceOfStripRight(s: string)
    ensures NonSpace(StripRight(s)) == NonSpace(s)
    decreases |s|
  {
    if s != [] && IsSpace(s[|s| - 1]) {
      var p := s[..|s| - 1];
      assert s == p + [s[|s| - 1]];
      NonSpaceOfConcat(p, [s[|s| - 1]]);
      NonSpaceOfStripRight(p);
    }
  }

  lemma NonSpaceOfStrip(s: string)
    ensures NonSpace(Strip(s)) == NonSpace(s)
  {
    NonSpaceOfDropSpaces(s);
    NonSpaceOfStripRight(DropSpaces(s));
  }

  // ---------------------------------------------------------------------------
  // Document ids: f"doc_{doc_id_counter:03d}"
  // ---------------------------------------------------------------------------

  predicate IsDigit(c: char) {
    '0' <= c <= '9'
  }

  function DigitChar(d: nat): (c: char)
    requires d < 10
    ensures IsDigit(c)
  {
    "0123456789"[d]
  }

  function DigitValue(c: char): (d: nat)
    requires IsDigit(c)
    ensures d < 10
  {
    (c as int) - ('0' as int)
  }

  /** The decimal numeral of `n`, without leading zeros. */
  function Decimal(n: nat): (s: string)
    ensures |s| >= 1 && forall i :: 0 <= i < |s| ==> IsDigit(s[i])
  {
    if n < 10 then [DigitChar(n)] else Decimal(n / 10) + [DigitChar(n % 10)]
  }

  /** Python's `03d` format: the numeral, left-padded with zeros to width 3. */
  function ZeroPad(s: string, width: nat): (r: string)
    ensures |r| == if |s| >= width then |s| else width
    ensures forall i :: 0 <= i < |r| - |s| ==> r[i] == '0'
    ensures r[|r| - |s|..] == s
  {
    if |s| >= width then s else seq(width - |s|, _ => '0') + s
  }

  const IdPrefix := "doc_"

  /** The id given to the document that takes counter value `n`. */
  function FormatId(n: nat): string {
    IdPrefix + ZeroPad(Decimal(n), 3)
  }

  /** The number a string of decimal digits denotes (leading zeros allowed). */
  function DecimalValue(s: string): nat
    requires forall i :: 0 <= i < |s| ==> IsDigit(s[i])
  {
    if s == [] then 0 else DecimalValue(s[..|s| - 1]) * 10 + DigitValue(s[|s| - 1])
  }

  /** Reads a document id back into its counter value. */
  function ParseId(id: string): Option<nat> {
    if |id| > |IdPrefix| && id[..|IdPrefix|] == IdPrefix
       && forall i :: |IdPrefix| <= i < |id| ==> IsDigit(id[i])
    then Some(DecimalValue(id[|IdPrefix|..]))
    else None
  }

  lemma {:induction false} DecimalValueOfDecimal(n: nat)
    ensures DecimalValue(Decimal(n)) == n
  {
    if n >= 10 {
      var s := Decimal(n);
      assert s[..|s| - 1] == Decimal(n / 10);
      DecimalValueOfDecimal(n / 10);
    }
  }

  /** Leading zeros do not change the value of a numeral. */
  lemma {:induction false} DecimalValueOfLeadingZeros(z: string, s: string)
    requires forall i :: 0 <= i < |z| ==> z[i] == '0'
    requires forall i :: 0 <= i < |s| ==> IsDigit(s[i])
    ensures forall i :: 0 <= i < |z + s| ==> IsDigit((z + s)[i])
    ensures DecimalValue(z + s) == DecimalValue(s)
    decreases |s|
  {
    if s == [] {
      DecimalValueOfZeros(z);
      assert z + s == z;
    } else {
      var zs := z + s;
      assert zs[..|zs| - 1] == z + s[..|s| - 1];
      DecimalValueOfLeadingZeros(z, s[..|s| - 1]);
    }
  }

  lemma {:induction false} DecimalValueOfZeros(z: string)
    requires forall i :: 0 <= i < |z| ==> z[i] == '0'
    ensures forall i :: 0 <= i < |z| ==> IsDigit(z[i])
    ensures DecimalValue(z) == 0
    decreases |z|
  {
    if z != [] {
      DecimalValueOfZeros(z[..|z| - 1]);
    }
  }

  /** Formatting an id and reading it back gives the counter value: ids round-trip. */
  lemma ParseFormatId(n: nat)
    ensures ParseId(FormatId(n)) == Some(n)
  {
    var d := Decimal(n);
    var p := ZeroPad(d, 3);
    var z := p[..|p| - |d|];
    assert p == z + d;
    DecimalValueOfLeadingZeros(z, d);
    DecimalValueOfDecimal(n);
    assert FormatId(n)[|IdPrefix|..] == p;
  }

  /** Distinct counter values give distinct ids. */
  lemma FormatIdInjective(m: nat, n: nat)
    requires m != n
    ensures FormatId(m) != FormatId(n)
  {
    ParseFormatId(m);
    ParseFormatId(n);
  }

  /** Counters below 1000 give ids of exactly seven characters, "doc_" and three digits. */
  lemma FormatIdWidth(n: nat)
    ensures |FormatId(n)| >= 7
    ensures n < 1000 ==> |FormatId(n)| == 7
  {
    if n < 1000 { DecimalWidth(n); }
  }

  lemma {:induction false} DecimalWidth(n: nat)
    requires n < 1000
    ensures |Decimal(n)| <= 3
  {
    if n >= 10 { DecimalWidth(n / 10); }
  }

  // ---------------------------------------------------------------------------
  // build_knowledge_graph_data
  // ---------------------------------------------------------------------------

  /** What `extract_metadata_from_pdf` returns when it succeeds. */
  datatype Extraction = Extraction(title: string, fullText: string)

  /** A file whose extraction succeeded, with what was extracted. */
  datatype Source = Source(filename: string, extraction: Extraction)

  /** One entry of the "documents" list; `abstractText` is the JSON key "abstract". */
  datatype Document = Document(
    id: string, filename: string, title: string, abstractText: string,
    keywords: seq<string>, path: string)

  /** One entry of "graph"."nodes"; `nodeLabel` and `nodeType` are the JSON keys "label" and "type". */
  datatype Node = Node(id: string, nodeLabel: string, nodeType: string)

  /** The shape of an entry of "graph"."links" (the builder creates none). */
  datatype Link = Link(source: string, target: string, relation: string)

  datatype Graph = Graph(nodes: seq<Node>, links: seq<Link>)

  /** The whole result: exactly the keys "documents" and "graph"."nodes"/"links". */
  datatype KnowledgeGraphData = KnowledgeGraphData(documents: seq<Document>, graph: Graph)

  const PdfPathPrefix := "../data/pdfs/"
  const NoAbstract := "暂无摘要"
  const AbstractLength := 500

  /** The files, in order, whose extraction succeeded; failures are skipped. */
  function Successes(files: seq<string>, extract: string -> Option<Extraction>): (r: seq<Source>)
    ensures |r| <= |files|
  {
    if files == [] then []
    else
      var last := files[|files| - 1];
      Successes(files[..|files| - 1], extract)
        + match extract(last) case None => [] case Some(e) => [Source(last, e)]
  }

  /** Python's `s[:n]`. */
  function Prefix(s: string, n: nat): (r: string)
    ensures |r| == if |s| <= n then |s| else n
    ensures r == s[..|r|]
  {
    if |s| <= n then s else s[..n]
  }

  /** The "abstract" field: the cleaned first 500 characters followed by "...",
      or a fixed placeholder when the extracted text is empty. */
  function Abstract(fullText: string): string {
    if fullText != "" then CleanText(Some(Prefix(fullText, AbstractLength))) + "..." else NoAbstract
  }

  /** `str.lower()` on the ASCII letters; see README for why that is exact here. */
  function Lower(s: string): (r: string)
    ensures |r| == |s|
  {
    if s == [] then []
    else
      var c := s[0];
      [if 'A' <= c <= 'Z' then ((c as int) + 32) as char else c] + Lower(s[1..])
  }

  /** Python's `needle in hay` for strings. */
  predicate Contains(hay: string, needle: string)
    decreases |hay|
  {
    (|needle| <= |hay| && hay[..|needle|] == needle) || (hay != [] && Contains(hay[1..], needle))
  }

  /** The "keywords" field, chosen from the file name. */
  function Keywords(filename: string): seq<string> {
    if Contains(Lower(filename), "machine_learning") || Contains(Lower(filename), "reinforcement_learning")
    then ["机器学习", "强化学习"]
    else ["知识图谱", "AI"]
  }

  /** `doc` is the record the builder writes for `src` when its counter is `i`. */
  predicate IsDocumentOf(doc: Document, src: Source, i: nat) {
    && doc.id == FormatId(i)
    && doc.filename == src.filename
    && doc.title == src.extraction.title
    && doc.abstractText == Abstract(src.extraction.fullText)
    && doc.keywords == Keywords(src.filename)
    && doc.path == PdfPathPrefix + src.filename
  }

  /** `node` is the graph node the builder writes for `doc`. */
  predicate IsNodeOf(node: Node, doc: Document) {
    node.id == doc.id && node.nodeLabel == doc.title && node.nodeType == "document"
  }

  /** The "documents" and "graph"."nodes" lists run in parallel: node i has the
      id of document i, its title as label and type "document"; ids are distinct. */
  ghost predicate NodesMatchDocuments(data: KnowledgeGraphData) {
    && |data.documents| == |data.graph.nodes|
    && (forall i :: 0 <= i < |data.graph.nodes| ==> IsNodeOf(data.graph.nodes[i], data.documents[i]))
    && (forall i, j :: 0 <= i < j < |data.documents| ==> data.documents[i].id != data.documents[j].id)
  }

  /** `build_knowledge_graph_data(pdf_files)`, with `extract` standing for
      `extract_metadata_from_pdf` on the file's path under the PDF directory. */
  method BuildKnowledgeGraphData(pdfFiles: seq<string>, extract: string -> Option<Extraction>)
    returns (data: KnowledgeGraphData)
    ensures data.graph.links == []
    ensures |data.documents| == |data.graph.nodes| == |Successes(pdfFiles, extract)|
    ensures forall i :: 0 <= i < |data.documents| ==>
      IsDocumentOf(data.documents[i], Successes(pdfFiles, extract)[i], i)
    ensures NodesMatchDocuments(data)
  {
    var documents: seq<Document> := [];
    var nodes: seq<Node> := [];
    var links: seq<Link> := [];
    var docIdCounter: nat := 0;
    ghost var sources: seq<Source> := [];
    for k := 0 to |pdfFiles|
      invariant sources == Successes(pdfFiles[..k], extract)
      invariant docIdCounter == |documents| == |nodes| == |sources|
      invariant forall i :: 0 <= i < |documents| ==> IsDocumentOf(documents[i], sources[i], i)
      invariant forall i :: 0 <= i < |nodes| ==> IsNodeOf(nodes[i], documents[i])
    {
      var pdfFile := pdfFiles[k];
      SuccessesStep(pdfFiles, k, extract);
      var extracted := extract(pdfFile);
      if extracted.None? {
        continue;
      }
      var title, fullText := extracted.value.title, extracted.value.fullText;
      var docId := FormatId(docIdCounter);
      var document := Document(docId, pdfFile, title, Abstract(fullText), Keywords(pdfFile), PdfPathPrefix + pdfFile);
      ghost var source := Source(pdfFile, extracted.value);
      DocumentsExtend(documents, sources, document, source);
      docIdCounter := docIdCounter + 1;
      documents := documents + [document];
      nodes := nodes + [Node(docId, title, "document")];
      sources := sources + [source];
    }
    assert pdfFiles[..|pdfFiles|] == pdfFiles;
    data := KnowledgeGraphData(documents, Graph(nodes, links));
    IdsDistinct(data);
  }

  /** Appending the record of the next source keeps documents and sources in step. */
  lemma DocumentsExtend(documents: seq<Document>, sources: seq<Source>, doc: Document, src: Source)
    requires |documents| == |sources|
    requires forall i :: 0 <= i < |documents| ==> IsDocumentOf(documents[i], sources[i], i)
    requires IsDocumentOf(doc, src, |documents|)
    ensures forall i :: 0 <= i < |documents| + 1 ==>
      IsDocumentOf((documents + [doc])[i], (sources + [src])[i], i)
  {
  }

  /** One more file adds its source exactly when its extraction succeeds. */
  lemma SuccessesStep(files: seq<string>, k: nat, extract: string -> Option<Extraction>)
    requires k < |files|
    ensures Successes(files[..k + 1], extract) ==
      Successes(files[..k], extract)
        + match extract(files[k]) case None => [] case Some(e) => [Source(files[k], e)]
  {
    assert files[..k + 1][..k] == files[..k];
  }

  /** Documents numbered in order from 0 have pairwise distinct ids. */
  lemma IdsDistinct(data: KnowledgeGraphData)
    requires |data.documents| == |data.graph.nodes|
    requires forall i :: 0 <= i < |data.documents| ==> data.documents[i].id == FormatId(i)
    requires forall i :: 0 <= i < |data.graph.nodes| ==> IsNodeOf(data.graph.nodes[i], data.documents[i])
    ensures NodesMatchDocuments(data)
  {
    forall i, j | 0 <= i < j < |data.documents| ensures data.documents[i].id != data.documents[j].id {
      FormatIdInjective(i, j);
    }
  }

  /** Successes distribute over concatenation: what a file contributes does not
      depend on the files around it. */
  lemma {:induction false} SuccessesAppend(a: seq<string>, b: seq<string>, extract: string -> Option<Extraction>)
    ensures Successes(a + b, extract) == Successes(a, extract) + Successes(b, extract)
    decreases |b|
  {
    if b == [] {
      assert a + b == a;
    } else {
      var ab := a + b;
      assert ab[..|ab| - 1] == a + b[..|b| - 1];
      SuccessesAppend(a, b[..|b| - 1], extract);
    }
  }

  /** A file whose extraction fails contributes nothing: it gets no document,
      no node and no id, so the ids of later files are unaffected. */
  lemma FailedFileSkipped(a: seq<string>, f: string, b: seq<string>, extract: string -> Option<Extraction>)
    requires extract(f).None?
    ensures Successes(a + [f] + b, extract) == Successes(a + b, extract)
  {
    SuccessesAppend(a + [f], b, extract);
    SuccessesAppend(a, [f], extract);
    SuccessesAppend(a, b, extract);
    assert [f][..0] == [];
  }

  /** The file at index k, when its extraction succeeds, is source number
      "successes before k": the counter value, hence the id, it receives. */
  lemma SuccessIndex(files: seq<string>, k: nat, extract: string -> Option<Extraction>)
    requires k < |files| && extract(files[k]).Some?
    ensures |Successes(files[..k], extract)| < |Successes(files, extract)|
    ensures Successes(files, extract)[|Successes(files[..k], extract)|]
      == Source(files[k], extract(files[k]).value)
  {
    assert files == files[..k] + [files[k]] + files[k + 1..];
    SuccessesAppend(files[..k] + [files[k]], files[k + 1..], extract);
    SuccessesAppend(files[..k], [files[k]], extract);
    assert [files[k]][..0] == [];
  }

  /** Every source comes from the input list and carries what the oracle returned. */
  lemma {:induction false} SuccessesFromInput(files: seq<string>, extract: string -> Option<Extraction>)
    ensures forall s :: s in Successes(files, extract) ==>
      s.filename in files && extract(s.filename) == Some(s.extraction)
    decreases |files|
  {
    if files != [] {
      SuccessesFromInput(files[..|files| - 1], extract);
    }
  }

  /** With no failures, every file yields a document, in input order. */
  lemma {:induction false} SuccessesAllOk(files: seq<string>, extract: string -> Option<Extraction>)
    requires forall i :: 0 <= i < |files| ==> extract(files[i]).Some?
    ensures |Successes(files, extract)| == |files|
    ensures forall i :: 0 <= i < |files| ==> Successes(files, extract)[i].filename == files[i]
    decreases |files|
  {
    if files != [] {
      SuccessesAllOk(files[..|files| - 1], extract);
    }
  }

  /** The abstract is the placeholder for empty text; otherwise it is a cleaned
      string of at most 500 characters (it holds the words of the first 500
      characters of the text) followed by "...". */
  lemma AbstractShape(fullText: string)
    ensures fullText == "" ==> Abstract(fullText) == NoAbstract
    ensures fullText != "" ==>
      var a := Abstract(fullText);
      && |a| >= 3 && a[|a| - 3..] == "..." && |a| <= AbstractLength + 3
      && IsClean(a[..|a| - 3])
      && Words(a[..|a| - 3]) == Words(Prefix(fullText, AbstractLength))
  {
    if fullText != "" {
      var p := Prefix(fullText, AbstractLength);
      var c := CleanText(Some(p));
      var a := c + "...";
      assert a[..|a| - 3] == c;
      CleanTextKeepsWords(p);
      CleanTextNoLonger(p);
    }
  }

  /** Cleaning never lengthens a string. */
  lemma CleanTextNoLonger(s: string)
    ensures |CleanText(Some(s))| <= |s|
  {
    SqueezeNoLonger(s);
  }

  lemma {:induction false} SqueezeNoLonger(s: string)
    ensures |Squeeze(s)| <= |s|
    decreases |s|
  {
    if s != [] {
      if IsSpace(s[0]) {
        SqueezeNoLonger(DropSpaces(s[1..]));
      } else {
        SqueezeNoLonger(s[1..]);
      }
    }
  }

  /** The keyword choice ignores letter case. */
  lemma KeywordsIgnoreCase(filename: string)
    ensures Keywords(Lower(filename)) == Keywords(filename)
  {
    LowerIdempotent(filename);
  }

  lemma {:induction false} LowerIdempotent(s: string)
    ensures Lower(Lower(s)) == Lower(s)
  {
    if s != [] {
      LowerIdempotent(s[1..]);
      assert Lower(s)[1..] == Lower(s[1..]);
    }
  }
}
