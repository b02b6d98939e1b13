// Several manifests in one text: the printer puts a separator line between
// documents, the reader splits on the separator and trims.

module ManifestStream {
  import opened Wrappers
  import opened Text

  type Reply<+T> = Result<T, string>

  datatype Resource<+B> = Resource(apiVersion: string, kind: string, name: string, body: B)

  /** The YAML library: how it prints a resource if it can, and what it makes of a text
      (None when it does not parse). */
  datatype Decoded<+B> = Unreadable | Read(r: Resource<B>)
  datatype Codec<!B> = Codec(
    encodable: Resource<B> -> bool,
    encode: Resource<B> -> string,
    decode: string -> Decoded<B>)

  const SEPARATOR: string := "\n---"

  function Parse<B>(c: Codec<B>, data: string): Reply<Resource<B>> {
    match c.decode(data)
    case Unreadable => Err("failed to parse manifest")
    case Read(r) =>
      if r.apiVersion == "" then Err("missing apiVersion")
      else if r.kind == "" then Err("missing kind")
      else if r.name == "" then Err("missing metadata.name")
      else Ok(r)
  }

  /** The document decodes to r, and r has the three fields a manifest must have. */
  ghost predicate IsDocument<B(!new)>(c: Codec<B>, doc: string, r: Resource<B>) {
    c.decode(doc) == Read(r) && r.apiVersion != "" && r.kind != "" && r.name != ""
  }

  lemma ParseIff<B(!new)>(c: Codec<B>, doc: string, r: Resource<B>)
    ensures Parse(c, doc) == Ok(r) <==> IsDocument(c, doc, r)
  {
  }

  // --- strings.Split ---

  /** Where the separator first occurs, or |s| when it does not. */
  function FirstSeparator(s: string): (i: nat)
    ensures i <= |s| && (i < |s| ==> SEPARATOR <= s[i..])
  {
    if s == "" || SEPARATOR <= s then 0 else 1 + FirstSeparator(s[1..])
  }

  function Split(s: string): (parts: seq<string>)
    decreases |s|
  {
    var i := FirstSeparator(s);
    if i == |s| then [s] else [s[..i]] + Split(s[i + |SEPARATOR|..])
  }

  ghost predicate Contains(s: string) { exists i :: 0 <= i <= |s| && "\n---" <= s[i..] }

  /** strings.Join with the separator. */
  function Rejoined(parts: seq<string>): string
    requires parts != []
  {
    if |parts| == 1 then parts[0] else parts[0] + "\n---" + Rejoined(parts[1..])
  }

  lemma {:induction false} NoneBefore(s: string, j: nat)
    requires j < FirstSeparator(s)
    ensures !(SEPARATOR <= s[j..])
  {
    if j > 0 {
      NoneBefore(s[1..], j - 1);
      assert s[1..][j - 1..] == s[j..];
    } else {
      assert s[0..] == s;
    }
  }

  /** Nothing before the first separator contains one. */
  lemma FrontIsFree(s: string)
    ensures !Contains(s[..FirstSeparator(s)])
  {
    var i := FirstSeparator(s);
    forall j | 0 <= j <= i ensures !(SEPARATOR <= s[..i][j..]) {
      if SEPARATOR <= s[..i][j..] {
        assert s[..i][j..] <= s[j..];
        assert j < i;
        NoneBefore(s, j);
      }
    }
  }

  lemma RejoinFirst(a: string, parts: seq<string>)
    requires parts != []
    ensures Rejoined([a] + parts) == a + "\n---" + Rejoined(parts)
  {
    assert ([a] + parts)[1..] == parts;
  }

  lemma CutAtSeparator(s: string, i: nat)
    requires i <= |s| && SEPARATOR <= s[i..]
    ensures i + |SEPARATOR| <= |s| && s == s[..i] + "\n---" + s[i + |SEPARATOR|..]
  {
    assert s == s[..i] + s[i..] && s[i..] == SEPARATOR + s[i..][|SEPARATOR|..];
  }

  /** What splitting is: the parts contain no separator, and joined with it they are the text again. */
  lemma {:induction false} SplitReads(s: string)
    ensures Split(s) != [] && Rejoined(Split(s)) == s
    ensures forall p :: p in Split(s) ==> !Contains(p)
    decreases |s|
  {
    var i := FirstSeparator(s);
    FrontIsFree(s);
    if i == |s| {
      assert s[..i] == s;
      assert Split(s) == [s];
    } else {
      var rest := s[i + |SEPARATOR|..];
      CutAtSeparator(s, i);
      SplitReads(rest);
      RejoinFirst(s[..i], Split(rest));
    }
  }

  // --- the two loops ---

  /** What formatYAML writes for documents already printed. */
  function Joined(docs: seq<string>): string {
    if docs == [] then ""
    else Joined(docs[..|docs| - 1]) + (if |docs| > 1 then "---\n" else "") + docs[|docs| - 1]
  }

  function Printed<B>(c: Codec<B>, rs: seq<Resource<B>>): (docs: seq<string>)
    ensures |docs| == |rs| && forall i :: 0 <= i < |rs| ==> docs[i] == c.encode(rs[i])
  {
    seq(|rs|, i requires 0 <= i < |rs| => c.encode(rs[i]))
  }

  /** Where printing stops: at the first resource that cannot be encoded,
      with the separator before it written already. */
  ghost predicate StopsAt<B>(c: Codec<B>, rs: seq<Resource<B>>, m: nat, out: string) {
    && m < |rs| && !c.encodable(rs[m]) && (forall i :: 0 <= i < m ==> c.encodable(rs[i]))
    && out == Joined(Printed(c, rs)[..m]) + if m > 0 then "---\n" else ""
  }

  method FormatYAML<B>(c: Codec<B>, rs: seq<Resource<B>>) returns (out: string, ok: bool)
    ensures ok <==> forall r :: r in rs ==> c.encodable(r)
    ensures ok ==> out == Joined(Printed(c, rs))
    ensures !ok ==> exists m :: StopsAt(c, rs, m, out)
  {
    out := "";
    for i := 0 to |rs|
      invariant out == Joined(Printed(c, rs)[..i])
      invariant forall j :: 0 <= j < i ==> c.encodable(rs[j])
    {
      if i > 0 {
        out := out + "---\n";
      }
      if !c.encodable(rs[i]) {
        assert Joined(Printed(c, rs)[..i]) + "" == Joined(Printed(c, rs)[..i]);
        assert StopsAt(c, rs, i, out);
        return out, false;
      }
      out := out + c.encode(rs[i]);
      assert Printed(c, rs)[..i + 1][..i] == Printed(c, rs)[..i];
    }
    assert Printed(c, rs)[..|rs|] == Printed(c, rs);
    return out, true;
  }

  /** The reader's loop body: a blank part is skipped, a document is appended, the first error stays. */
  function Extend<B>(c: Codec<B>, before: Reply<seq<Resource<B>>>, doc: string): Reply<seq<Resource<B>>> {
    if before.Err? || doc == "" then before
    else
      match Parse(c, doc)
      case Err(why) => Err(why)
      case Ok(r) => Ok(before.value + [r])
  }

  function ParseParts<B>(c: Codec<B>, parts: seq<string>): Reply<seq<Resource<B>>> {
    if parts == [] then Ok([]) else Extend(c, ParseParts(c, parts[..|parts| - 1]), TrimSpace(parts[|parts| - 1]))
  }

  /** `at` lists, in order, the parts that are not blank, and rs what they decode to. */
  ghost predicate ReadAt<B(!new)>(c: Codec<B>, parts: seq<string>, at: seq<nat>, rs: seq<Resource<B>>) {
    && |at| == |rs|
    && (forall k :: 0 <= k < |at| ==> at[k] < |parts| && IsDocument(c, TrimSpace(parts[at[k]]), rs[k]))
    && (forall j, k :: 0 <= j < k < |at| ==> at[j] < at[k])
    && (forall i: nat :: i < |parts| && TrimSpace(parts[i]) != "" ==> i in at)
  }

  ghost predicate IsReading<B(!new)>(c: Codec<B>, parts: seq<string>, rs: seq<Resource<B>>) {
    exists at :: ReadAt(c, parts, at, rs)
  }

  ghost predicate IsUnreadable<B(!new)>(c: Codec<B>, part: string) {
    TrimSpace(part) != "" && forall r :: !IsDocument(c, TrimSpace(part), r)
  }

  lemma NextPart<B>(c: Codec<B>, parts: seq<string>, i: nat)
    requires i < |parts|
    ensures ParseParts(c, parts[..i + 1]) == Extend(c, ParseParts(c, parts[..i]), TrimSpace(parts[i]))
  {
    assert parts[..i + 1][..i] == parts[..i];
  }

  lemma SkipPart<B(!new)>(c: Codec<B>, parts: seq<string>, i: nat, rs: seq<Resource<B>>)
    requires i < |parts| && IsReading(c, parts[..i], rs) && TrimSpace(parts[i]) == ""
    ensures IsReading(c, parts[..i + 1], rs)
  {
    var at :| ReadAt(c, parts[..i], at, rs);
    assert parts[..i + 1] == parts[..i] + [parts[i]];
    assert ReadAt(c, parts[..i + 1], at, rs);
  }

  lemma ReadPart<B(!new)>(c: Codec<B>, parts: seq<string>, i: nat, rs: seq<Resource<B>>, r: Resource<B>)
    requires i < |parts| && IsReading(c, parts[..i], rs) && IsDocument(c, TrimSpace(parts[i]), r)
    ensures IsReading(c, parts[..i + 1], rs + [r])
  {
    var at :| ReadAt(c, parts[..i], at, rs);
    assert parts[..i + 1] == parts[..i] + [parts[i]];
    assert ReadAt(c, parts[..i + 1], at + [i], rs + [r]);
  }

  method ParseMultiple<B(!new)>(c: Codec<B>, data: string) returns (r: Reply<seq<Resource<B>>>)
    ensures r == ParseParts(c, Split(data))
    ensures r.Ok? ==> IsReading(c, Split(data), r.value)
    ensures r.Err? ==> exists part :: part in Split(data) && IsUnreadable(c, part)
  {
    var docs := Split(data);
    var resources: seq<Resource<B>> := [];
    assert ReadAt(c, docs[..0], [], resources);
    for i := 0 to |docs|
      invariant ParseParts(c, docs[..i]) == Ok(resources)
      invariant IsReading(c, docs[..i], resources)
    {
      NextPart(c, docs, i);
      var doc := TrimSpace(docs[i]);
      if doc == "" {
        SkipPart(c, docs, i, resources);
        continue;
      }
      var parsed := Parse(c, doc);
      if parsed.Err? {
        ErrorStays(c, docs, i + 1);
        assert docs[i] in docs && IsUnreadable(c, docs[i]);
        return Err(parsed.error);
      }
      ReadPart(c, docs, i, resources, parsed.value);
      resources := resources + [parsed.value];
    }
    assert docs[..|docs|] == docs;
    return Ok(resources);
  }

  lemma {:induction false} ErrorStays<B>(c: Codec<B>, docs: seq<string>, i: nat)
    requires i <= |docs| && ParseParts(c, docs[..i]).Err?
    ensures ParseParts(c, docs) == ParseParts(c, docs[..i])
  {
    if i < |docs| {
      var init := docs[..|docs| - 1];
      assert init[..i] == docs[..i];
      ErrorStays(c, init, i);
    } else {
      assert docs[..i] == docs;
    }
  }

  // --- the round trip ---

  /** What is assumed of a printed document: it ends in a newline and holds no separator line, not even as its first. */
  ghost predicate Clean(d: string) {
    d != "" && d[|d| - 1] == '\n' && !Contains(d) && !("---" <= d)
  }

  lemma {:induction false} NoSeparator(s: string)
    requires !Contains(s)
    ensures FirstSeparator(s) == |s|
  {
    if s != "" {
      assert s[0..] == s;
      forall i | 0 <= i <= |s[1..]| ensures !(SEPARATOR <= s[1..][i..]) {
        assert s[1..][i..] == s[i + 1..];
      }
      NoSeparator(s[1..]);
    }
  }

  lemma NotAtStart(a: string, rest: string)
    requires a != "" && !Contains(a + "\n")
    ensures !(SEPARATOR <= a + SEPARATOR + rest)
  {
    var s := a + SEPARATOR + rest;
    assert (a + "\n")[0..] == a + "\n";
    if |a| >= 3 {
      assert s[..4] == (a + "\n")[..4];
    } else {
      assert s[|a|] == '\n' && SEPARATOR[|a|] == '-';
    }
  }

  /** A separator that follows a text in which none begins is the first one. */
  lemma {:induction false} SeparatorAfter(a: string, rest: string)
    requires !Contains(a + "\n")
    ensures FirstSeparator(a + SEPARATOR + rest) == |a|
  {
    var s := a + SEPARATOR + rest;
    if a == "" {
      assert s == SEPARATOR + rest;
    } else {
      NotAtStart(a, rest);
      assert s[1..] == a[1..] + SEPARATOR + rest;
      forall i | 0 <= i <= |a[1..] + "\n"| ensures !(SEPARATOR <= (a[1..] + "\n")[i..]) {
        assert (a[1..] + "\n")[i..] == (a + "\n")[i + 1..];
      }
      SeparatorAfter(a[1..], rest);
    }
  }

  /** Documents from the front: each but the last is followed by a separator line. */
  lemma {:induction false} JoinedFromFront(docs: seq<string>)
    requires |docs| > 1
    ensures Joined(docs) == docs[0] + "---\n" + Joined(docs[1..])
  {
    var init, last := docs[..|docs| - 1], docs[|docs| - 1];
    if |docs| == 2 {
      assert docs[1..] == [last] && init == [docs[0]];
      assert Joined([last]) == last by { assert [last][..0] == []; }
      assert Joined(init) == docs[0] by { assert init[..0] == []; }
    } else {
      JoinedFromFront(init);
      assert init[1..] == docs[1..][..|docs| - 2];
    }
  }

  /** The parts the reader sees: a newline may lead each part but the first, and the last alone keeps its own. */
  function Parts(lead: string, docs: seq<string>): seq<string>
    requires docs != []
    decreases |docs|
  {
    if |docs| == 1 then [lead + docs[0]] else [lead + Chop(docs[0])] + Parts("\n", docs[1..])
  }

  function Chop(d: string): string { if d == "" then "" else d[..|d| - 1] }

  lemma LeadIsHarmless(lead: string, d: string)
    requires (lead == "" || lead == "\n") && Clean(d)
    ensures !Contains(lead + d)
  {
    forall i | 0 <= i <= |lead + d| ensures !(SEPARATOR <= (lead + d)[i..]) {
      if i >= |lead| {
        assert (lead + d)[i..] == d[i - |lead|..];
      } else {
        assert (lead + d)[i..] == lead + d;
        if |d| >= 3 {
          assert (lead + d)[1..4] == d[..3] && d[..3] != "---" && SEPARATOR[1..4] == "---";
        }
      }
    }
  }

  lemma SplitOnce(a: string, rest: string)
    requires !Contains(a + "\n")
    ensures Split(a + SEPARATOR + rest) == [a] + Split(rest)
  {
    var s := a + SEPARATOR + rest;
    SeparatorAfter(a, rest);
    assert s[..|a|] == a && s[|a| + |SEPARATOR|..] == rest;
  }

  lemma SplitFirst(lead: string, docs: seq<string>)
    requires (lead == "" || lead == "\n") && |docs| > 1 && Clean(docs[0])
    ensures Split(lead + Joined(docs)) == [lead + Chop(docs[0])] + Split("\n" + Joined(docs[1..]))
  {
    var d := docs[0];
    var a, rest := lead + Chop(d), "\n" + Joined(docs[1..]);
    LeadIsHarmless(lead, d);
    JoinedFromFront(docs);
    assert d == Chop(d) + "\n";
    Regroup(lead, Chop(d), Joined(docs[1..]));
    SplitOnce(a, rest);
  }

  lemma Regroup(lead: string, c: string, rest: string)
    ensures lead + (c + "\n") == (lead + c) + "\n"
    ensures lead + ((c + "\n") + "---\n" + rest) == (lead + c) + SEPARATOR + ("\n" + rest)
  {
  }

  lemma SplitLast(lead: string, d: string)
    requires (lead == "" || lead == "\n") && Clean(d)
    ensures Split(lead + Joined([d])) == [lead + d]
  {
    assert [d][..0] == [] && Joined([d]) == d;
    LeadIsHarmless(lead, d);
    NoSeparator(lead + d);
  }

  lemma {:induction false} SplitJoined(lead: string, docs: seq<string>)
    requires (lead == "" || lead == "\n") && docs != [] && forall i :: 0 <= i < |docs| ==> Clean(docs[i])
    ensures Split(lead + Joined(docs)) == Parts(lead, docs)
    decreases |docs|
  {
    if |docs| == 1 {
      assert docs == [docs[0]];
      SplitLast(lead, docs[0]);
    } else {
      SplitFirst(lead, docs);
      SplitJoined("\n", docs[1..]);
    }
  }

  lemma {:induction false} TrimRightNewline(s: string)
    ensures TrimRight(s + "\n") == TrimRight(s)
  {
    assert (s + "\n")[..|s|] == s;
  }

  lemma {:induction false} TrimLeftNewline(s: string)
    ensures TrimLeft(s + "\n") == if TrimLeft(s) == "" then "" else TrimLeft(s) + "\n"
  {
    if s == "" {
      assert TrimLeft("\n") == TrimLeft("\n"[1..]);
    } else {
      assert (s + "\n")[1..] == s[1..] + "\n";
      if IsSpace(s[0]) { TrimLeftNewline(s[1..]); }
    }
  }

  lemma TrimIgnoresNewlines(lead: string, s: string)
    requires lead == "" || lead == "\n"
    ensures TrimSpace(lead + s) == TrimSpace(s)
    ensures TrimSpace(s + "\n") == TrimSpace(s)
  {
    if lead == "" { assert lead + s == s; } else { assert (lead + s)[1..] == s; }
    TrimLeftNewline(s);
    TrimRightNewline(TrimLeft(s));
  }

  /** The codec law the round trip rests on: a printed resource is clean and, trimmed, reads back as itself. */
  ghost predicate Faithful<B(!new)>(c: Codec<B>, r: Resource<B>) {
    c.encodable(r) && Clean(c.encode(r)) && IsDocument(c, TrimSpace(c.encode(r)), r)
  }

  lemma {:induction false} PartsParse<B(!new)>(c: Codec<B>, lead: string, rs: seq<Resource<B>>)
    requires rs != [] && (lead == "" || lead == "\n")
    requires forall r :: r in rs ==> Faithful(c, r)
    requires Parse(c, "").Err?
    ensures ParseFront(c, Parts(lead, Printed(c, rs))) == Ok(rs)
    decreases |rs|
  {
    var docs := Printed(c, rs);
    assert rs[0] in rs;
    var d := docs[0];
    assert d == Chop(d) + "\n";
    TrimIgnoresNewlines(lead, d);
    TrimIgnoresNewlines(lead, Chop(d));
    if |rs| == 1 {
      assert Parts(lead, docs)[1..] == [];
      assert rs == [rs[0]] + [];
      assert rs == [rs[0]];
    } else {
      assert Printed(c, rs[1..]) == docs[1..];
      PartsParse(c, "\n", rs[1..]);
      assert rs == [rs[0]] + rs[1..];
      assert Parts(lead, docs)[1..] == Parts("\n", docs[1..]);
    }
  }

  function Prepend<B>(c: Codec<B>, doc: string, rest: Reply<seq<Resource<B>>>): Reply<seq<Resource<B>>> {
    if doc == "" then rest
    else
      match Parse(c, doc)
      case Err(why) => Err(why)
      case Ok(r) => if rest.Err? then rest else Ok([r] + rest.value)
  }

  /** ParseParts read from the front. */
  function ParseFront<B>(c: Codec<B>, parts: seq<string>): Reply<seq<Resource<B>>> {
    if parts == [] then Ok([]) else Prepend(c, TrimSpace(parts[0]), ParseFront(c, parts[1..]))
  }

  lemma ExtendPrepend<B>(c: Codec<B>, first: string, mid: Reply<seq<Resource<B>>>, last: string)
    ensures Extend(c, Prepend(c, first, mid), last) == Prepend(c, first, Extend(c, mid, last))
  {
    match mid
    case Err(_) =>
    case Ok(rs) =>
      if first != "" && last != "" && Parse(c, first).Ok? && Parse(c, last).Ok? {
        assert ([Parse(c, first).value] + rs) + [Parse(c, last).value]
               == [Parse(c, first).value] + (rs + [Parse(c, last).value]);
      }
  }

  lemma {:induction false} FrontIsParts<B>(c: Codec<B>, parts: seq<string>)
    ensures ParseFront(c, parts) == ParseParts(c, parts)
    decreases |parts|
  {
    if parts != [] {
      FrontIsParts(c, parts[1..]);
      PartsFromFront(c, parts);
    }
  }

  lemma {:induction false} PartsFromFront<B>(c: Codec<B>, parts: seq<string>)
    requires parts != []
    ensures ParseParts(c, parts) == Prepend(c, TrimSpace(parts[0]), ParseParts(c, parts[1..]))
    decreases |parts|
  {
    var init, last := parts[..|parts| - 1], TrimSpace(parts[|parts| - 1]);
    if init == [] {
      assert parts[1..] == [];
      if Parse(c, last).Ok? {
        var none: seq<Resource<B>> := [];
        assert none + [Parse(c, last).value] == [Parse(c, last).value] + none;
      }
    } else {
      PartsFromFront(c, init);
      assert init[1..] == parts[1..][..|parts[1..]| - 1];
      ExtendPrepend(c, TrimSpace(parts[0]), ParseParts(c, init[1..]), last);
    }
  }

  /** ParseMultiple of what formatYAML writes is the original list, for any number of resources. */
  lemma PrintThenParse<B(!new)>(c: Codec<B>, rs: seq<Resource<B>>)
    requires forall r :: r in rs ==> Faithful(c, r)
    requires Parse(c, "").Err?
    ensures ParseParts(c, Split(Joined(Printed(c, rs)))) == Ok(rs)
  {
    var docs := Printed(c, rs);
    if rs == [] {
      assert Split("") == [""] && [""][..0] == [];
      assert TrimSpace("") == "";
    } else {
      forall i | 0 <= i < |docs| ensures Clean(docs[i]) { assert rs[i] in rs; }
      SplitJoined("", docs);
      assert "" + Joined(docs) == Joined(docs);
      PartsParse(c, "", rs);
      FrontIsParts(c, Parts("", docs));
    }
  }
}
