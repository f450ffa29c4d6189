/** The main block of make-html: defaults for title and description, one
    block per item in document order, and the placeholder splice. */
module MakeHtml {
  import opened Wrappers
  import opened Trivia
  import opened Text
  import opened Decimal
  import opened Answers
  import opened Multimedia

  const DefaultTitle := "Trivia"
  const DefaultDescription := "A round of trivia"
  const TitleToken := "$title"
  const DescriptionToken := "$description"
  const ContentToken := "$content"

  /** `source.title || 'Trivia'` */
  function TitleOf(doc: Document): (t: string)
    ensures t != ""
    ensures doc.title != "" ==> t == doc.title
    ensures doc.title == "" ==> t == DefaultTitle
  {
    if doc.title != "" then doc.title else DefaultTitle
  }

  /** `source.description || 'A round of trivia'` */
  function DescriptionOf(doc: Document): (t: string)
    ensures t != ""
    ensures doc.description != "" ==> t == doc.description
    ensures doc.description == "" ==> t == DefaultDescription
  {
    if doc.description != "" then doc.description else DefaultDescription
  }

  /** Id of the "Show Answer" control of item `i`. */
  function LabelId(i: nat): string { "label" + NatToString(i) }

  /** Handler call of the control of item `i`. */
  function Toggle(i: nat): string { "showAnswer(" + NatToString(i) + ")" }

  /** Id of the hidden answer of item `i`. */
  function AnswerId(i: nat): string { "ans" + NatToString(i) }

  /** The block of one item; the one index `i` names the control, the
      handler argument and the hidden answer. */
  function ItemMarkup(q: string, mm: string, i: nat, a: string): string
  {
    Concat(["\n<div class=\"item\">\n<div class=\"question\">", q, "</div>\n", mm,
            "\n<div class=\"answer\"><span class=\"label\" id=\"", LabelId(i),
            "\" onClick=\"", Toggle(i), "\">Show Answer</span><span style=\"display: none;\" id=\"",
            AnswerId(i), "\">", a, "</span></div>\n</div>"])
  }

  /** The multimedia slot: empty unless the item lists some multimedia. */
  function Slot(table: map<string, MMObject>, refs: seq<MMRef>): Outcome<string>
  {
    if |refs| == 0 then Ok("") else Container(table, refs)
  }

  /** Item `i`'s block; its answer is formatted before its multimedia, and an
      `undefined` answer prints as the text "undefined". */
  function ItemBlock(table: map<string, MMObject>, item: Item, i: nat): Outcome<string>
  {
    match FormatAnswer(item.answer)
    case Err(e) => Err(e)
    case Ok(a) =>
      match Slot(table, item.multimedia)
      case Err(e) => Err(e)
      case Ok(mm) => Ok(ItemMarkup(item.question, mm, i, Interp(a)))
  }

  /** The blocks of items `i` onwards, each with its own position, in
      order; the first failing block aborts the run. */
  function ItemsFrom(table: map<string, MMObject>, items: seq<Item>, i: nat): Outcome<string>
    requires i <= |items|
  {
    Chain(Blocks(table, items, i))
  }

  /** The three global replacements, in the order the main block applies them. */
  function Splice(template: string, title: string, description: string, content: string): string
  {
    ReplaceAll(ReplaceAll(ReplaceAll(template, TitleToken, title), DescriptionToken, description),
               ContentToken, content)
  }

  /** The rendered page: the template with every title, description and
      content placeholder replaced, or the error that aborted rendering. */
  function Page(template: string, doc: Document): Outcome<string>
  {
    match ItemsFrom(doc.multimedia, doc.items, 0)
    case Err(e) => Err(e)
    case Ok(content) => Ok(Splice(template, TitleOf(doc), DescriptionOf(doc), content))
  }

  /** The `if (valid)` block: splice title and description, build the
      content, then splice it in. */
  method Render(template: string, doc: Document) returns (r: Outcome<string>)
    ensures r == Page(template, doc)
  {
    var title := TitleOf(doc);
    var description := DescriptionOf(doc);
    var output := ReplaceAll(ReplaceAll(template, TitleToken, title), DescriptionToken, description);
    var content := RenderItems(doc.multimedia, doc.items);
    if content.Err? {
      return Err(content.error);
    }
    PageOfContent(template, doc);
    output := ReplaceAll(output, ContentToken, content.value);
    r := Ok(output);
  }

  /** The item loop: one block per item with a running counter, appended to
      the content; the first failing item aborts the run. */
  method RenderItems(table: map<string, MMObject>, items: seq<Item>) returns (r: Outcome<string>)
    ensures r == ItemsFrom(table, items, 0)
  {
    ghost var blocks := Blocks(table, items, 0);
    var content := "";
    var i := 0;
    PrependEmpty(Chain(blocks));
    while i < |items|
      invariant 0 <= i <= |items|
      invariant Chain(blocks) == Prepend(content, Chain(blocks[i..]))
    {
      var block := RenderItem(table, items[i], i);
      BlockAt(table, items, 0, i);
      ChainAdvance(blocks, i, content);
      if block.Err? {
        return Err(block.error);
      }
      content := content + block.value;
      i := i + 1;
    }
    assert blocks[i..] == [];
    assert content + "" == content;
    r := Ok(content);
  }

  /** The body of the item loop: format the answer, then the multimedia when
      the item lists any, then put the block together. */
  method RenderItem(table: map<string, MMObject>, item: Item, i: nat) returns (r: Outcome<string>)
    ensures r == ItemBlock(table, item, i)
  {
    var q := item.question;
    var a := FormatAnswer(item.answer);
    if a.Err? {
      return Err(a.error);
    }
    var mm := "";
    if |item.multimedia| > 0 {
      var formatted := FormatMM(table, item.multimedia);
      if formatted.Err? {
        return Err(formatted.error);
      }
      mm := formatted.value;
    }
    r := Ok(ItemMarkup(q, mm, i, Interp(a.value)));
  }

  /** The outcome of each item from `i` on, in order, each built with its
      own position. */
  function Blocks(table: map<string, MMObject>, items: seq<Item>, i: nat): (bs: seq<Outcome<string>>)
    requires i <= |items|
    ensures |bs| == |items| - i
    decreases |items| - i
  {
    if i == |items| then [] else [ItemBlock(table, items[i], i)] + Blocks(table, items, i + 1)
  }

  /** Entry `k - i` of the outcomes from `i` on is item `k`'s block. */
  lemma {:induction false} BlockAt(table: map<string, MMObject>, items: seq<Item>, i: nat, k: nat)
    requires i <= k < |items|
    ensures Blocks(table, items, i)[k - i] == ItemBlock(table, items[k], k)
    decreases k - i
  {
    if k > i {
      BlockAt(table, items, i + 1, k);
      var rest := Blocks(table, items, i + 1);
      assert Blocks(table, items, i) == [ItemBlock(table, items[i], i)] + rest;
    }
  }

  /** An item's block fails exactly when its answer sets `n` without `of`
      or one of its references is dangling or names a source-less image; a
      failing answer is reported before any multimedia failure. */
  lemma ItemBlockOutcome(table: map<string, MMObject>, item: Item, i: nat)
    ensures ItemBlock(table, item, i).Ok? <==>
              FormatAnswer(item.answer).Ok?
              && forall j :: 0 <= j < |item.multimedia| ==> Renderable(table, item.multimedia[j])
    ensures FormatAnswer(item.answer).Err? ==> ItemBlock(table, item, i) == Err(FormatAnswer(item.answer).error)
  {
  }

  /** Items `i` onwards render exactly when each of their blocks does. */
  lemma ItemsFromOkIff(table: map<string, MMObject>, items: seq<Item>, i: nat)
    requires i <= |items|
    ensures ItemsFrom(table, items, i).Ok?
            <==> forall k :: i <= k < |items| ==> ItemBlock(table, items[k], k).Ok?
  {
    var bs := Blocks(table, items, i);
    ChainOkIff(bs);
    forall k | i <= k < |items|
      ensures ItemBlock(table, items[k], k).Ok? == bs[k - i].Ok?
    {
      BlockAt(table, items, i, k);
    }
    forall j | 0 <= j < |bs|
      ensures bs[j].Ok? == ItemBlock(table, items[j + i], j + i).Ok?
    {
      BlockAt(table, items, i, j + i);
    }
  }

  /** The content is one block per item, in document order, the block at
      position `k` built with index `k`. */
  lemma ItemsFromBlocks(table: map<string, MMObject>, items: seq<Item>, i: nat)
    returns (blocks: seq<string>)
    requires i <= |items|
    requires ItemsFrom(table, items, i).Ok?
    ensures |blocks| == |items| - i
    ensures ItemsFrom(table, items, i).value == Concat(blocks)
    ensures forall k :: i <= k < |items| ==> ItemBlock(table, items[k], k) == Ok(blocks[k - i])
  {
    var bs := Blocks(table, items, i);
    blocks := ChainPieces(bs);
    forall k | i <= k < |items| {
      BlockAt(table, items, i, k);
    }
  }

  /** Distinct items get distinct control ids, handler calls and answer ids. */
  lemma IdsDistinct(i: nat, j: nat)
    requires i != j
    ensures LabelId(i) != LabelId(j)
    ensures Toggle(i) != Toggle(j)
    ensures AnswerId(i) != AnswerId(j)
  {
    NatToStringInjective(i, j);
    var si, sj := NatToString(i), NatToString(j);
    assert LabelId(i)[5..] == si && LabelId(j)[5..] == sj;
    assert AnswerId(i)[3..] == si && AnswerId(j)[3..] == sj;
    assert Toggle(i)[11..|Toggle(i)| - 1] == si && Toggle(j)[11..|Toggle(j)| - 1] == sj;
  }

  /** The index the handler receives is the one in the answer's id. */
  lemma ToggleRevealsOwnAnswer(i: nat)
    ensures |Toggle(i)| >= 13 && |AnswerId(i)| >= 4
    ensures var t := Toggle(i)[11..|Toggle(i)| - 1]; var s := AnswerId(i)[3..];
            (forall c :: 0 <= c < |t| ==> IsDigit(t[c])) && (forall c :: 0 <= c < |s| ==> IsDigit(s[c]))
            && |t| >= 1 && |s| >= 1 && ParseNat(t) == i && ParseNat(s) == i
  {
    var si := NatToString(i);
    assert Toggle(i)[11..|Toggle(i)| - 1] == si;
    assert AnswerId(i)[3..] == si;
    ParseNatToString(i);
  }

  /** An item without multimedia has an empty slot and never consults the
      document's multimedia table. */
  lemma NoMultimediaNoLookup(t1: map<string, MMObject>, t2: map<string, MMObject>, item: Item, i: nat)
    requires item.multimedia == []
    ensures Slot(t1, item.multimedia) == Ok("")
    ensures ItemBlock(t1, item, i) == ItemBlock(t2, item, i)
  {
  }

  /** A bare-string answer appears in the hidden cell unchanged. */
  lemma LiteralAnswerCell(table: map<string, MMObject>, q: string, s: string, i: nat)
    ensures ItemBlock(table, Item(q, Literal(s), []), i) == Ok(ItemMarkup(q, "", i, s))
  {
  }

  predicate NoDollar(s: string)
  {
    forall c :: 0 <= c < |s| ==> s[c] != '$'
  }

  lemma NoDollarFree(s: string, p: string)
    requires NoDollar(s) && |p| >= 1 && p[0] == '$'
    ensures Free(s, p)
  {
  }

  /** Every `$` in `s` is followed by the character `c`. */
  predicate DollarsBefore(s: string, c: char)
  {
    forall i :: 0 <= i < |s| && s[i] == '$' ==> i + 1 < |s| && s[i + 1] == c
  }

  lemma DollarsBeforeFree(s: string, c: char, p: string)
    requires DollarsBefore(s, c) && |p| >= 2 && p[0] == '$' && p[1] != c
    ensures Free(s, p)
  {
  }

  /** In a text of `$`-free pieces joined by a placeholder, every `$` is the
      start of a placeholder. */
  lemma {:induction false} JoinDollars(ps: seq<string>, sep: string)
    requires |sep| >= 2 && sep[0] == '$' && NoDollar(sep[1..])
    requires forall i :: 0 <= i < |ps| ==> NoDollar(ps[i])
    ensures DollarsBefore(Join(ps, sep), sep[1])
    decreases |ps|
  {
    if |ps| > 1 {
      JoinDollars(ps[1..], sep);
      var a, r := ps[0], Join(ps[1..], sep);
      var s := a + sep + r;
      forall i | 0 <= i < |s| ensures s[i] == '$' ==> i + 1 < |s| && s[i + 1] == sep[1] {
        if i < |a| {
          assert s[i] == a[i];
        } else if i < |a| + |sep| {
          var j := i - |a|;
          assert s[i] == sep[j];
          if j > 0 {
            assert sep[j] == sep[1..][j - 1];
          }
        } else {
          assert s[i] == r[i - |a| - |sep|];
        }
      }
    }
  }

  /** A text without `$` holds no placeholder, so a pass leaves it as it is. */
  lemma NoPlaceholderUnchanged(s: string, p: string, r: string)
    requires |p| >= 1 && p[0] == '$'
    ensures NoDollar(s) ==> ReplaceAll(s, p, r) == s
  {
    if NoDollar(s) {
      NoDollarFree(s, p);
      ReplaceAllOfFree(s, p, r);
    }
  }

  /** A template without `$` has no placeholder and comes out unchanged,
      whatever the title, description and content. */
  lemma SpliceKeepsPlainTemplate(template: string, title: string, description: string, content: string)
    requires NoDollar(template)
    ensures Splice(template, title, description, content) == template
  {
    NoPlaceholderUnchanged(template, TitleToken, title);
    NoPlaceholderUnchanged(template, DescriptionToken, description);
    NoPlaceholderUnchanged(template, ContentToken, content);
  }

  lemma {:induction false} JoinNoDollar(ps: seq<string>, sep: string)
    requires NoDollar(sep)
    requires forall i :: 0 <= i < |ps| ==> NoDollar(ps[i])
    ensures NoDollar(Join(ps, sep))
    decreases |ps|
  {
    if |ps| > 1 {
      JoinNoDollar(ps[1..], sep);
    }
  }

  lemma TokensBorderFree()
    ensures BorderFree(TitleToken) && BorderFree(DescriptionToken) && BorderFree(ContentToken)
  {
    UniqueHeadBorderFree(TitleToken);
    UniqueHeadBorderFree(DescriptionToken);
    UniqueHeadBorderFree(ContentToken);
  }

  /** Every `$title` of a template is replaced by the title, not only the
      first, and the template's other text is kept. */
  lemma TitleFillsEveryPlaceholder(ps: seq<string>, title: string, description: string, content: string)
    requires |ps| >= 1 && forall i :: 0 <= i < |ps| ==> NoDollar(ps[i])
    requires NoDollar(title)
    ensures Splice(Join(ps, TitleToken), title, description, content) == Join(ps, title)
  {
    forall i | 0 <= i < |ps| ensures Free(ps[i], TitleToken) {
      NoDollarFree(ps[i], TitleToken);
    }
    TokensBorderFree();
    ReplaceAllOfJoin(ps, TitleToken, title);
    var t1 := Join(ps, title);
    JoinNoDollar(ps, title);
    NoDollarFree(t1, DescriptionToken);
    ReplaceAllOfFree(t1, DescriptionToken, description);
    NoDollarFree(t1, ContentToken);
    ReplaceAllOfFree(t1, ContentToken, content);
  }

  /** Likewise every `$description`. */
  lemma DescriptionFillsEveryPlaceholder(ps: seq<string>, title: string, description: string, content: string)
    requires |ps| >= 1 && forall i :: 0 <= i < |ps| ==> NoDollar(ps[i])
    requires NoDollar(description)
    ensures Splice(Join(ps, DescriptionToken), title, description, content) == Join(ps, description)
  {
    var t0 := Join(ps, DescriptionToken);
    assert DescriptionToken[1..] == "description";
    JoinDollars(ps, DescriptionToken);
    DollarsBeforeFree(t0, 'd', TitleToken);
    ReplaceAllOfFree(t0, TitleToken, title);
    forall i | 0 <= i < |ps| ensures Free(ps[i], DescriptionToken) {
      NoDollarFree(ps[i], DescriptionToken);
    }
    TokensBorderFree();
    ReplaceAllOfJoin(ps, DescriptionToken, description);
    var t1 := Join(ps, description);
    JoinNoDollar(ps, description);
    NoDollarFree(t1, ContentToken);
    ReplaceAllOfFree(t1, ContentToken, content);
  }

  /** Every `$content` receives the whole content. */
  lemma ContentFillsEveryPlaceholder(ps: seq<string>, title: string, description: string, content: string)
    requires |ps| >= 1 && forall i :: 0 <= i < |ps| ==> NoDollar(ps[i])
    ensures Splice(Join(ps, ContentToken), title, description, content) == Join(ps, content)
  {
    var t0 := Join(ps, ContentToken);
    assert ContentToken[1..] == "content";
    JoinDollars(ps, ContentToken);
    DollarsBeforeFree(t0, 'c', TitleToken);
    ReplaceAllOfFree(t0, TitleToken, title);
    DollarsBeforeFree(t0, 'c', DescriptionToken);
    ReplaceAllOfFree(t0, DescriptionToken, description);
    forall i | 0 <= i < |ps| ensures Free(ps[i], ContentToken) {
      NoDollarFree(ps[i], ContentToken);
    }
    TokensBorderFree();
    ReplaceAllOfJoin(ps, ContentToken, content);
  }

  /** The three placeholders a template can hold. */
  datatype Field = TitleField | DescriptionField | ContentField

  /** A template read as a run of `$`-free text and placeholders. */
  datatype Segment = Plain(text: string) | Hole(field: Field)

  /** The placeholder text of a field: a `$` and then a name without `$`;
      the names differ in their first letter. */
  function Token(f: Field): (t: string)
    ensures |t| >= 2 && t[0] == '$' && NoDollar(t[1..])
  {
    match f
    case TitleField => TitleToken
    case DescriptionField => DescriptionToken
    case ContentField => ContentToken
  }

  lemma TokensDiffer(f: Field, g: Field)
    requires f != g
    ensures Token(f)[1] != Token(g)[1]
  {
  }

  /** The value the main block puts at a field's placeholder. */
  function Value(f: Field, title: string, description: string, content: string): string
  {
    match f
    case TitleField => title
    case DescriptionField => description
    case ContentField => content
  }

  /** The template text the segments spell. */
  function Source(segs: seq<Segment>): string
  {
    if segs == [] then ""
    else (match segs[0] case Plain(w) => w case Hole(f) => Token(f)) + Source(segs[1..])
  }

  /** The page the segments are meant to give: each placeholder in turn
      replaced by its field's value, the text around it kept. */
  function Filled(segs: seq<Segment>, title: string, description: string, content: string): string
  {
    if segs == [] then ""
    else (match segs[0] case Plain(w) => w case Hole(f) => Value(f, title, description, content))
         + Filled(segs[1..], title, description, content)
  }

  /** The segments with every placeholder of `f` turned into the text `v`. */
  function Fill(segs: seq<Segment>, f: Field, v: string): (r: seq<Segment>)
    ensures |r| == |segs|
    ensures forall i :: 0 <= i < |segs| ==> r[i] == if segs[i] == Hole(f) then Plain(v) else segs[i]
  {
    if segs == [] then [] else [if segs[0] == Hole(f) then Plain(v) else segs[0]] + Fill(segs[1..], f, v)
  }

  predicate PlainNoDollar(segs: seq<Segment>)
  {
    forall i :: 0 <= i < |segs| && segs[i].Plain? ==> NoDollar(segs[i].text)
  }

  /** `$`-free text in front of the scanned text passes through unchanged. */
  lemma {:induction false} PlainPassesThrough(w: string, z: string, p: string, r: string)
    requires NoDollar(w) && |p| >= 1 && p[0] == '$'
    ensures ReplaceAll(w + z, p, r) == w + ReplaceAll(z, p, r)
    decreases |w|
  {
    var s := w + z;
    if w == "" {
      assert s == z;
    } else {
      assert s[0] == w[0] != '$';
      ReplaceAllSkips(s, p, r);
      assert s[1..] == w[1..] + z;
      PlainPassesThrough(w[1..], z, p, r);
      assert [w[0]] + w[1..] == w;
    }
  }

  /** A different placeholder in front of the scanned text passes through
      unchanged. */
  lemma OtherTokenPassesThrough(q: string, z: string, p: string, r: string)
    requires |q| >= 2 && q[0] == '$' && NoDollar(q[1..])
    requires |p| >= 2 && p[0] == '$' && p[1] != q[1]
    ensures ReplaceAll(q + z, p, r) == q + ReplaceAll(z, p, r)
  {
    var s := q + z;
    if |p| <= |s| {
      assert s[..|p|][1] == q[1];
    }
    assert !StartsWith(s, p);
    ReplaceAllSkipsAt(s, p, r);
    assert s[1..] == q[1..] + z;
    PlainPassesThrough(q[1..], z, p, r);
    assert [q[0]] + q[1..] == q;
  }

  /** The placeholder itself in front of the scanned text is replaced. */
  lemma TokenReplaced(p: string, z: string, r: string)
    requires p != ""
    ensures ReplaceAll(p + z, p, r) == r + ReplaceAll(z, p, r)
  {
    var s := p + z;
    assert s[..|p|] == p;
    assert s[|p|..] == z;
  }

  /** One replacement pass turns exactly the placeholders of its own field
      into the value, in place. */
  lemma {:induction false} ReplaceFillsField(segs: seq<Segment>, f: Field, v: string)
    requires PlainNoDollar(segs)
    ensures ReplaceAll(Source(segs), Token(f), v) == Source(Fill(segs, f, v))
    decreases |segs|
  {
    if segs != [] {
      var rest := segs[1..];
      ReplaceFillsField(rest, f, v);
      assert Fill(segs, f, v)[1..] == Fill(rest, f, v);
      var z := Source(rest);
      match segs[0]
      case Plain(w) =>
        PlainPassesThrough(w, z, Token(f), v);
      case Hole(g) =>
        if g == f {
          TokenReplaced(Token(f), z, v);
        } else {
          TokensDiffer(f, g);
          OtherTokenPassesThrough(Token(g), z, Token(f), v);
        }
    }
  }

  lemma {:induction false} FillEveryField(segs: seq<Segment>, title: string, description: string, content: string)
    ensures Source(Fill(Fill(Fill(segs, TitleField, title), DescriptionField, description), ContentField, content))
            == Filled(segs, title, description, content)
    decreases |segs|
  {
    if segs != [] {
      FillEveryField(segs[1..], title, description, content);
      var all := Fill(Fill(Fill(segs, TitleField, title), DescriptionField, description), ContentField, content);
      assert all[1..] == Fill(Fill(Fill(segs[1..], TitleField, title), DescriptionField, description), ContentField, content);
    }
  }

  /** The splice puts each field's value at every one of its placeholders,
      in any template of `$`-free text and placeholders, as long as the
      title and the description have no `$` a later pass could take for a
      placeholder. The content is inserted last and never rescanned. */
  lemma SpliceFillsTemplate(segs: seq<Segment>, title: string, description: string, content: string)
    requires PlainNoDollar(segs) && NoDollar(title) && NoDollar(description)
    ensures Splice(Source(segs), title, description, content) == Filled(segs, title, description, content)
  {
    ReplaceFillsField(segs, TitleField, title);
    var s1 := Fill(segs, TitleField, title);
    ReplaceFillsField(s1, DescriptionField, description);
    var s2 := Fill(s1, DescriptionField, description);
    ReplaceFillsField(s2, ContentField, content);
    FillEveryField(segs, title, description, content);
  }

  lemma PageOfContent(template: string, doc: Document)
    requires ItemsFrom(doc.multimedia, doc.items, 0).Ok?
    ensures Page(template, doc)
            == Ok(Splice(template, TitleOf(doc), DescriptionOf(doc), ItemsFrom(doc.multimedia, doc.items, 0).value))
  {
  }

  lemma DefaultsHaveNoDollar()
    ensures NoDollar(DefaultTitle) && NoDollar(DefaultDescription)
  {
  }

  /** A document without title or description shows "Trivia" and "A round
      of trivia" at every title and description placeholder of a template
      made of `$`-free text and placeholders, and its content at every
      content placeholder. */
  lemma DefaultsFillTemplate(segs: seq<Segment>, doc: Document)
    requires PlainNoDollar(segs)
    requires doc.title == "" && doc.description == ""
    requires ItemsFrom(doc.multimedia, doc.items, 0).Ok?
    ensures Page(Source(segs), doc)
            == Ok(Filled(segs, "Trivia", "A round of trivia", ItemsFrom(doc.multimedia, doc.items, 0).value))
  {
    PageOfContent(Source(segs), doc);
    assert TitleOf(doc) == "Trivia" && DescriptionOf(doc) == "A round of trivia";
    DefaultsHaveNoDollar();
    SpliceFillsTemplate(segs, "Trivia", "A round of trivia", ItemsFrom(doc.multimedia, doc.items, 0).value);
  }

  /** `$`-free pieces joined by one placeholder, as segments. */
  function Alternate(ps: seq<string>, f: Field): seq<Segment>
    requires |ps| >= 1
    decreases |ps|
  {
    if |ps| == 1 then [Plain(ps[0])] else [Plain(ps[0]), Hole(f)] + Alternate(ps[1..], f)
  }

  lemma {:induction false} AlternateSource(ps: seq<string>, f: Field)
    requires |ps| >= 1
    ensures Source(Alternate(ps, f)) == Join(ps, Token(f))
    decreases |ps|
  {
    if |ps| > 1 {
      AlternateSource(ps[1..], f);
      var a := Alternate(ps[1..], f);
      var segs := [Plain(ps[0]), Hole(f)] + a;
      assert segs[1..] == [Hole(f)] + a;
      assert segs[1..][1..] == a;
    }
  }

  lemma {:induction false} AlternateFilled(ps: seq<string>, f: Field, title: string, description: string, content: string)
    requires |ps| >= 1
    ensures Filled(Alternate(ps, f), title, description, content) == Join(ps, Value(f, title, description, content))
    decreases |ps|
  {
    if |ps| > 1 {
      AlternateFilled(ps[1..], f, title, description, content);
      var a := Alternate(ps[1..], f);
      var segs := [Plain(ps[0]), Hole(f)] + a;
      assert segs[1..] == [Hole(f)] + a;
      assert segs[1..][1..] == a;
    }
  }

  lemma {:induction false} AlternatePlain(ps: seq<string>, f: Field)
    requires |ps| >= 1 && forall i :: 0 <= i < |ps| ==> NoDollar(ps[i])
    ensures PlainNoDollar(Alternate(ps, f))
    decreases |ps|
  {
    if |ps| > 1 {
      AlternatePlain(ps[1..], f);
      var a := Alternate(ps[1..], f);
      var segs := [Plain(ps[0]), Hole(f)] + a;
      forall i | 0 <= i < |segs| && segs[i].Plain? ensures NoDollar(segs[i].text) {
        if i >= 2 {
          assert segs[i] == a[i - 2];
        }
      }
    }
  }

  /** A document without title or description shows the default title,
      or the default description, at every placeholder of that field in a
      template whose text has no `$` of its own. */
  lemma DefaultsFillPlaceholders(ps: seq<string>, f: Field, doc: Document)
    requires |ps| >= 1 && forall i :: 0 <= i < |ps| ==> NoDollar(ps[i])
    requires f != ContentField
    requires doc.title == "" && doc.description == ""
    requires ItemsFrom(doc.multimedia, doc.items, 0).Ok?
    ensures Page(Join(ps, Token(f)), doc) == Ok(Join(ps, Value(f, "Trivia", "A round of trivia", "")))
  {
    var content := ItemsFrom(doc.multimedia, doc.items, 0).value;
    AlternateSource(ps, f);
    AlternateFilled(ps, f, DefaultTitle, DefaultDescription, content);
    AlternatePlain(ps, f);
    DefaultsFillTemplate(Alternate(ps, f), doc);
    assert Value(f, DefaultTitle, DefaultDescription, content) == Value(f, "Trivia", "A round of trivia", "");
  }

  /** Rendering fails exactly when some item's answer sets `n` without `of`,
      or its multimedia has a dangling reference or a source-less image. */
  lemma PageOkIff(template: string, doc: Document)
    ensures Page(template, doc).Ok? <==>
            forall k :: 0 <= k < |doc.items| ==>
              FormatAnswer(doc.items[k].answer).Ok?
              && forall j :: 0 <= j < |doc.items[k].multimedia| ==> Renderable(doc.multimedia, doc.items[k].multimedia[j])
  {
    ItemsFromOkIff(doc.multimedia, doc.items, 0);
    forall k | 0 <= k < |doc.items| {
      ItemBlockOutcome(doc.multimedia, doc.items[k], k);
    }
  }
}
