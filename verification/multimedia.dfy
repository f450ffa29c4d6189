/** formatMM: the multimedia block of an item. */
module Multimedia {
  import opened Wrappers
  import opened Trivia
  import opened Text

  const ContainerOpen := "<div class=\"mmcontainer\">"
  const ContainerClose := "</div>"
  const DataSeparator := ";base64,"

  /** The address put in `src`: the `uri` when it is set, otherwise a data
      URI built from the inline payload. */
  function DisplayUri(src: MediaSource): (u: string)
    ensures src.uri != "" ==> u == src.uri
    ensures src.uri == "" ==> StartsWith(u, "data:")
  {
    if src.uri != "" then src.uri
    else "data:" + Interp(src.mimetype) + DataSeparator + Interp(src.data)
  }

  function ImageDiv(uri: string): string
  {
    "\n<div class=\"mmcontent\"><img src=\"" + uri + "\"></div>\n"
  }

  function SourceTag(src: MediaSource): string
  {
    "<source src=\"" + DisplayUri(src) + "\" type=\"" + Interp(src.mimetype) + "\">\n"
  }

  /** One `<source>` element per entry, in order. */
  function SourceTags(srcs: seq<MediaSource>): string
  {
    if srcs == [] then "" else SourceTag(srcs[0]) + SourceTags(srcs[1..])
  }

  function AudioDiv(tags: string): string
  {
    "<div class=\"mmcontent\"><audio controls>" + tags + "</audio></div>"
  }

  /** An indirect reference is looked up in the document's table; a missing
      key leaves `mm` undefined and the next property access throws. */
  function Resolve(table: map<string, MMObject>, ref: MMRef): (r: Outcome<MMObject>)
    ensures r.Err? <==> ref.Indirect? && ref.key !in table
  {
    match ref
    case Inline(obj) => Ok(obj)
    case Indirect(key) => if key in table then Ok(table[key]) else Err(UnresolvedReference(key))
  }

  predicate IsMedia(obj: MMObject)
  {
    obj.kind == "image" || obj.kind == "audio"
  }

  /** Markup of one multimedia object: an image shows its first source only,
      audio lists every source, any other type shows nothing. */
  function ObjectHtml(obj: MMObject): (r: Outcome<string>)
    ensures r.Err? <==> obj.kind == "image" && |obj.sources| == 0
    ensures r.Ok? ==> (r.value == "" <==> !IsMedia(obj))
  {
    if obj.kind == "image" then
      if |obj.sources| == 0 then Err(MissingImageSource)
      else Ok(ImageDiv(DisplayUri(obj.sources[0])))
    else if obj.kind == "audio" then Ok(AudioDiv(SourceTags(obj.sources)))
    else Ok("")
  }

  function RefHtml(table: map<string, MMObject>, ref: MMRef): Outcome<string>
  {
    match Resolve(table, ref)
    case Ok(obj) => ObjectHtml(obj)
    case Err(e) => Err(e)
  }

  /** The markup of every reference, in input order, up to the first error. */
  function RefsHtml(table: map<string, MMObject>, refs: seq<MMRef>): Outcome<string>
  {
    if refs == [] then Ok("") else Then(RefHtml(table, refs[0]), RefsHtml(table, refs[1..]))
  }

  /** A reference that renders without error. */
  predicate Renderable(table: map<string, MMObject>, ref: MMRef)
  {
    Resolve(table, ref).Ok? && (Resolve(table, ref).value.kind == "image" ==> |Resolve(table, ref).value.sources| >= 1)
  }

  /** The whole block: one container around the markup of every reference.
      It fails exactly when some reference is dangling or names an image
      without sources. */
  function Container(table: map<string, MMObject>, refs: seq<MMRef>): (r: Outcome<string>)
    ensures r.Ok? <==> forall k :: 0 <= k < |refs| ==> Renderable(table, refs[k])
    ensures r.Ok? ==> |r.value| >= |ContainerOpen| + |ContainerClose|
                      && StartsWith(r.value, ContainerOpen)
                      && r.value[|r.value| - |ContainerClose|..] == ContainerClose
  {
    RefsHtmlOkIff(table, refs);
    match RefsHtml(table, refs)
    case Ok(h) => Ok(ContainerOpen + h + ContainerClose)
    case Err(e) => Err(e)
  }

  /** formatMM: the markup of the references wrapped in one container. */
  method FormatMM(table: map<string, MMObject>, refs: seq<MMRef>) returns (r: Outcome<string>)
    ensures r == Container(table, refs)
  {
    var html := RefsMarkup(table, refs);
    ContainerOf(table, refs);
    if html.Err? {
      return Err(html.error);
    }
    r := Ok(ContainerOpen + html.value + ContainerClose);
  }

  /** The loop of formatMM: one pass over the references, resolving each and
      appending its markup; ObjectMarkup is the type dispatch in its body. */
  method RefsMarkup(table: map<string, MMObject>, refs: seq<MMRef>) returns (r: Outcome<string>)
    ensures r == RefsHtml(table, refs)
  {
    var html := "";
    var k := 0;
    assert refs[k..] == refs;
    PrependEmpty(RefsHtml(table, refs));
    while k < |refs|
      invariant 0 <= k <= |refs|
      invariant RefsHtml(table, refs) == Prepend(html, RefsHtml(table, refs[k..]))
    {
      RefsStep(table, refs, k);
      var mm: MMObject;
      match refs[k] {
        case Inline(obj) =>
          mm := obj;
        case Indirect(key) =>
          if key !in table {
            return Err(UnresolvedReference(key));
          }
          mm := table[key];
      }
      assert RefHtml(table, refs[k]) == ObjectHtml(mm);
      var piece := ObjectMarkup(mm);
      if piece.Err? {
        return Err(piece.error);
      }
      PrependTwice(html, piece.value, RefsHtml(table, refs[k + 1..]));
      html := html + piece.value;
      k := k + 1;
    }
    assert refs[k..] == [];
    assert html + "" == html;
    r := Ok(html);
  }

  /** The markup of one resolved object, with the audio sources listed by
      AudioSources, the inner loop of formatMM. */
  method ObjectMarkup(mm: MMObject) returns (r: Outcome<string>)
    ensures r == ObjectHtml(mm)
  {
    if mm.kind == "image" {
      if |mm.sources| == 0 {
        return Err(MissingImageSource);
      }
      r := Ok(ImageDiv(DisplayUri(mm.sources[0])));
    } else if mm.kind == "audio" {
      var sources := AudioSources(mm.sources);
      r := Ok(AudioDiv(sources));
    } else {
      r := Ok("");
    }
  }

  lemma ContainerOf(table: map<string, MMObject>, refs: seq<MMRef>)
    ensures RefsHtml(table, refs).Err? ==> Container(table, refs) == Err(RefsHtml(table, refs).error)
    ensures RefsHtml(table, refs).Ok? ==>
              Container(table, refs) == Ok(ContainerOpen + RefsHtml(table, refs).value + ContainerClose)
  {
  }

  /** The inner loop of formatMM that lists an audio object's sources. */
  method AudioSources(srcs: seq<MediaSource>) returns (sources: string)
    ensures sources == SourceTags(srcs)
  {
    sources := "";
    var j := 0;
    while j < |srcs|
      invariant 0 <= j <= |srcs|
      invariant SourceTags(srcs) == sources + SourceTags(srcs[j..])
    {
      SourceTagsStep(srcs, j);
      sources := sources + SourceTag(srcs[j]);
      j := j + 1;
    }
    assert srcs[j..] == [];
    assert sources + "" == sources;
  }

  lemma SourceTagsStep(srcs: seq<MediaSource>, j: nat)
    requires j < |srcs|
    ensures SourceTags(srcs[j..]) == SourceTag(srcs[j]) + SourceTags(srcs[j + 1..])
  {
  }

  /** The block from reference `k` on is reference `k` followed by the rest. */
  lemma RefsStep(table: map<string, MMObject>, refs: seq<MMRef>, k: nat)
    requires k < |refs|
    ensures RefsHtml(table, refs[k..]) == Then(RefHtml(table, refs[k]), RefsHtml(table, refs[k + 1..]))
  {
  }

  lemma {:induction false} RefsHtmlOkIff(table: map<string, MMObject>, refs: seq<MMRef>)
    ensures RefsHtml(table, refs).Ok? <==> forall k :: 0 <= k < |refs| ==> Renderable(table, refs[k])
    decreases |refs|
  {
    if refs != [] {
      RefsHtmlOkIff(table, refs[1..]);
      assert forall k :: 1 <= k < |refs| ==> refs[k] == refs[1..][k - 1];
    }
  }

  /** Rendering a concatenation of reference lists renders the first list,
      then the second: output follows input order. */
  lemma {:induction false} RefsHtmlAppend(table: map<string, MMObject>, a: seq<MMRef>, b: seq<MMRef>)
    ensures RefsHtml(table, a + b) == Then(RefsHtml(table, a), RefsHtml(table, b))
    decreases |a|
  {
    if a == [] {
      assert a + b == b;
      PrependEmpty(RefsHtml(table, b));
    } else {
      assert (a + b)[1..] == a[1..] + b;
      RefsHtmlAppend(table, a[1..], b);
      ThenAssociative(RefHtml(table, a[0]), RefsHtml(table, a[1..]), RefsHtml(table, b));
    }
  }

  /** When the block renders, its inner markup is the markup of each
      reference in turn. */
  lemma {:induction false} RefsHtmlPieces(table: map<string, MMObject>, refs: seq<MMRef>) returns (pieces: seq<string>)
    requires RefsHtml(table, refs).Ok?
    ensures |pieces| == |refs|
    ensures RefsHtml(table, refs).value == Concat(pieces)
    ensures forall k :: 0 <= k < |refs| ==> RefHtml(table, refs[k]) == Ok(pieces[k])
    decreases |refs|
  {
    if refs == [] {
      pieces := [];
    } else {
      var rest := RefsHtmlPieces(table, refs[1..]);
      pieces := [RefHtml(table, refs[0]).value] + rest;
      assert pieces[1..] == rest;
      assert forall k :: 1 <= k < |refs| ==> refs[k] == refs[1..][k - 1];
    }
  }

  /** A rendered reference contributes nothing exactly when its type is
      neither image nor audio; an image or audio contributes one
      `mmcontent` division. */
  lemma RefContribution(table: map<string, MMObject>, ref: MMRef)
    requires RefHtml(table, ref).Ok?
    ensures var h := RefHtml(table, ref).value;
            var obj := Resolve(table, ref).value;
            (h == "" <==> !IsMedia(obj))
            && (obj.kind == "image" ==> h == ImageDiv(DisplayUri(obj.sources[0])))
            && (obj.kind == "audio" ==> h == AudioDiv(SourceTags(obj.sources)))
  {
  }

  /** A rendered block is the container around one division per image or
      audio reference, in the order of the references; references of any
      other type add nothing. */
  lemma ContainerDivisions(table: map<string, MMObject>, refs: seq<MMRef>) returns (pieces: seq<string>)
    requires Container(table, refs).Ok?
    ensures |pieces| == |refs|
    ensures Container(table, refs).value == ContainerOpen + Concat(pieces) + ContainerClose
    ensures forall k :: 0 <= k < |refs| ==>
              var obj := Resolve(table, refs[k]).value;
              (obj.kind == "image" ==> pieces[k] == ImageDiv(DisplayUri(obj.sources[0])))
              && (obj.kind == "audio" ==> pieces[k] == AudioDiv(SourceTags(obj.sources)))
              && (!IsMedia(obj) ==> pieces[k] == "")
  {
    RefsHtmlOkIff(table, refs);
    pieces := RefsHtmlPieces(table, refs);
    forall k | 0 <= k < |refs|
      ensures var obj := Resolve(table, refs[k]).value;
              (obj.kind == "image" ==> pieces[k] == ImageDiv(DisplayUri(obj.sources[0])))
              && (obj.kind == "audio" ==> pieces[k] == AudioDiv(SourceTags(obj.sources)))
              && (!IsMedia(obj) ==> pieces[k] == "")
    {
      RefContribution(table, refs[k]);
    }
  }

  /** A reference whose type is neither image nor audio can be dropped
      without changing the block. */
  lemma SkipNonMedia(table: map<string, MMObject>, refs: seq<MMRef>, k: nat, x: MMRef)
    requires k <= |refs|
    requires Resolve(table, x).Ok? && !IsMedia(Resolve(table, x).value)
    ensures Container(table, refs[..k] + [x] + refs[k..]) == Container(table, refs)
  {
    var pre, post := refs[..k], refs[k..];
    RefsHtmlAppend(table, pre + [x], post);
    RefsHtmlAppend(table, pre, [x]);
    RefsHtmlAppend(table, pre, post);
    assert pre + post == refs;
    assert [x][1..] == [];
    assert RefHtml(table, x) == Ok("");
    assert RefsHtml(table, [x]) == Ok("") by {
      PrependEmpty(Ok(""));
    }
    ThenEmpty(RefsHtml(table, pre));
    assert RefsHtml(table, pre + [x]) == RefsHtml(table, pre);
  }

  /** An indirect reference renders exactly like the object it names placed
      inline. */
  lemma {:induction false} IndirectAsInline(table: map<string, MMObject>, refs: seq<MMRef>, k: nat)
    requires k < |refs| && refs[k].Indirect? && refs[k].key in table
    ensures RefsHtml(table, refs[k := Inline(table[refs[k].key])]) == RefsHtml(table, refs)
    decreases k
  {
    var inlined := refs[k := Inline(table[refs[k].key])];
    if k == 0 {
      assert inlined[1..] == refs[1..];
    } else {
      IndirectAsInline(table, refs[1..], k - 1);
      assert inlined[1..] == refs[1..][k - 1 := Inline(table[refs[k].key])];
    }
  }

  /** An image shows its first source and ignores the others. */
  lemma ImageUsesFirstSource(src: MediaSource, rest: seq<MediaSource>)
    ensures ObjectHtml(MMObject("image", [src] + rest)) == ObjectHtml(MMObject("image", [src]))
    ensures ObjectHtml(MMObject("image", [src])) == Ok(ImageDiv(DisplayUri(src)))
  {
  }

  /** Audio sources appear in the order given, one `<source>` each. */
  lemma {:induction false} SourceTagsAppend(a: seq<MediaSource>, b: seq<MediaSource>)
    ensures SourceTags(a + b) == SourceTags(a) + SourceTags(b)
    decreases |a|
  {
    if a == [] {
      assert a + b == b;
    } else {
      assert (a + b)[1..] == a[1..] + b;
      SourceTagsAppend(a[1..], b);
    }
  }

  /** A synthesised data URI gives back the MIME type and the payload when
      neither contains the separator, as base64 text never does. */
  lemma DataUriRecoverable(src: MediaSource)
    requires src.uri == ""
    requires Free(Interp(src.mimetype), DataSeparator) && Free(Interp(src.data), DataSeparator)
    ensures |DisplayUri(src)| >= 5 && DisplayUri(src)[..5] == "data:"
    ensures Split(DisplayUri(src)[5..], DataSeparator) == [Interp(src.mimetype), Interp(src.data)]
  {
    var parts := [Interp(src.mimetype), Interp(src.data)];
    assert parts[1..] == [Interp(src.data)];
    assert DisplayUri(src)[5..] == Join(parts, DataSeparator);
    UniqueHeadBorderFree(DataSeparator);
    SplitOfJoin(parts, DataSeparator);
  }
}
