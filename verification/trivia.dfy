/** The trivia document as the renderer sees it after schema validation.
    JavaScript "falsy" fields are folded into the representation: an empty
    string stands for an absent `title`, `description`, `question`, `regex`,
    `choice` or `uri`, a zero for an absent `n`, and an empty sequence for an
    absent item `multimedia` list, because the renderer treats both alike. */
module Trivia {
  import opened Wrappers
  import opened Text

  /** The TypeErrors that abort the renderer before anything is written. */
  datatype RenderError =
    | UnresolvedReference(key: string)  // `source.multimedia[mm.mmref]` is undefined
    | MissingImageSource                // `mm.sources[0]` is undefined for an image
    | MissingOfList                     // `ans.of` is undefined while `ans.n` is set

  type Outcome<T> = Result<T, RenderError>

  /** An answer is a bare string or a record whose fields are tested in a
      fixed order; `allOf`, `anyOf` and `of` are the `and`, `or` and `of`
      arrays, which count as present even when empty. */
  datatype Answer =
    | Literal(text: string)
    | Fields(regex: string, choice: string, allOf: Option<seq<string>>,
             anyOf: Option<seq<string>>, n: int, of: Option<seq<string>>)

  /** One entry of `sources`: an external `uri`, or an inline payload. */
  datatype MediaSource = MediaSource(uri: string, mimetype: Option<string>, data: Option<string>)

  /** `kind` is the object's `type`. */
  datatype MMObject = MMObject(kind: string, sources: seq<MediaSource>)

  datatype MMRef = Inline(obj: MMObject) | Indirect(key: string)

  datatype Item = Item(question: string, answer: Answer, multimedia: seq<MMRef>)

  /** `multimedia` is the document-level table that `mmref` keys index; an
      absent table behaves as an empty one. */
  datatype Document = Document(title: string, description: string, items: seq<Item>,
                               multimedia: map<string, MMObject>)

  /** How a template literal prints a possibly undefined string. */
  function Interp(v: Option<string>): string
  {
    match v
    case Some(s) => s
    case None => "undefined"
  }

  /** `h` followed by the text of `rest`, or the first error. */
  function Prepend(h: string, rest: Outcome<string>): Outcome<string>
  {
    match rest
    case Ok(t) => Ok(h + t)
    case Err(e) => Err(e)
  }

  /** `first` then `rest`, stopping at the first error as a thrown
      TypeError does. */
  function Then(first: Outcome<string>, rest: Outcome<string>): Outcome<string>
  {
    match first
    case Ok(h) => Prepend(h, rest)
    case Err(e) => Err(e)
  }

  /** The outcomes in order, each one's text followed by the rest; the
      first error stops the run. */
  function Chain(bs: seq<Outcome<string>>): Outcome<string>
  {
    if bs == [] then Ok("") else Then(bs[0], Chain(bs[1..]))
  }

  /** With `content` standing for the outcomes before `i`, taking outcome
      `i` either ends the run with its error or moves it into the content. */
  lemma ChainAdvance(bs: seq<Outcome<string>>, i: nat, content: string)
    requires i < |bs|
    requires Chain(bs) == Prepend(content, Chain(bs[i..]))
    ensures bs[i].Err? ==> Chain(bs) == Err(bs[i].error)
    ensures bs[i].Ok? ==> Chain(bs) == Prepend(content + bs[i].value, Chain(bs[i + 1..]))
  {
    assert bs[i..][1..] == bs[i + 1..];
    if bs[i].Ok? {
      PrependTwice(content, bs[i].value, Chain(bs[i + 1..]));
    }
  }

  /** A chain succeeds exactly when every outcome in it does. */
  lemma {:induction false} ChainOkIff(bs: seq<Outcome<string>>)
    ensures Chain(bs).Ok? <==> forall k :: 0 <= k < |bs| ==> bs[k].Ok?
    decreases |bs|
  {
    if bs != [] {
      ChainOkIff(bs[1..]);
      ThenOk(bs[0], Chain(bs[1..]));
      assert forall k :: 1 <= k < |bs| ==> bs[k] == bs[1..][k - 1];
    }
  }

  /** A successful chain is the concatenation of its outcomes' texts. */
  lemma {:induction false} ChainPieces(bs: seq<Outcome<string>>) returns (pieces: seq<string>)
    requires Chain(bs).Ok?
    ensures |pieces| == |bs|
    ensures Chain(bs).value == Concat(pieces)
    ensures forall k :: 0 <= k < |bs| ==> bs[k] == Ok(pieces[k])
    decreases |bs|
  {
    if bs == [] {
      pieces := [];
    } else {
      ThenOk(bs[0], Chain(bs[1..]));
      var rest := ChainPieces(bs[1..]);
      pieces := [bs[0].value] + rest;
      assert pieces[1..] == rest;
      assert forall k :: 1 <= k < |bs| ==> bs[k] == bs[1..][k - 1];
    }
  }

  lemma ThenAssociative(x: Outcome<string>, y: Outcome<string>, z: Outcome<string>)
    ensures Then(x, Then(y, z)) == Then(Then(x, y), z)
  {
    if x.Ok? && y.Ok? && z.Ok? {
      assert x.value + (y.value + z.value) == (x.value + y.value) + z.value;
    }
  }

  lemma PrependEmpty(x: Outcome<string>)
    ensures Prepend("", x) == x
  {
    if x.Ok? {
      assert "" + x.value == x.value;
    }
  }

  lemma ThenEmpty(x: Outcome<string>)
    ensures Then(x, Ok("")) == x
  {
    if x.Ok? {
      assert x.value + "" == x.value;
    }
  }

  lemma PrependTwice(h: string, p: string, x: Outcome<string>)
    ensures Prepend(h, Prepend(p, x)) == Prepend(h + p, x)
  {
    if x.Ok? {
      assert h + (p + x.value) == (h + p) + x.value;
    }
  }

  lemma ThenOk(x: Outcome<string>, y: Outcome<string>)
    ensures Then(x, y).Ok? <==> x.Ok? && y.Ok?
    ensures Then(x, y).Ok? ==> Then(x, y).value == x.value + y.value
  {
  }
}
