/** Rewriting the seed messages for models with and without vision. */
module Vision {
  import opened Sequences
  import opened Text

  datatype Block = Block(kind: string, text: string, url: string) | NotABlock

  datatype Content = Plain(text: string) | Blocks(blocks: seq<Block>) | NoContent

  /** The local image paths a message carries; an item that is no string is `None`. */
  datatype Marker = NoMarker | NotAList | Paths(items: seq<Option<string>>)

  datatype SeedMessage = SeedMessage(role: string, content: Content, marker: Marker, rest: map<string, string>)

  /** Which paths name images, and what reading one gives: nothing if unreadable or too large. */
  datatype Env = Env(isImage: string -> bool, dataUrl: string -> Option<string>)

  function LowerChar(c: char): char {
    if 'A' <= c <= 'Z' then c - 'A' + 'a' else c
  }

  function Lower(s: string): string {
    seq(|s|, i requires 0 <= i < |s| => LowerChar(s[i]))
  }

  const IMAGE_KINDS := {"image_url", "image", "input_image"}

  predicate IsImageBlock(b: Block) {
    b.Block? && Lower(b.kind) in IMAGE_KINDS
  }

  predicate HasImageBlock(c: Content) {
    c.Blocks? && exists b :: b in c.blocks && IsImageBlock(b)
  }

  function Texts(blocks: seq<Block>): seq<string> {
    if blocks == [] then []
    else (if blocks[0].Block? && Lower(blocks[0].kind) == "text" then [blocks[0].text] else []) + Texts(blocks[1..])
  }

  function NotEmpty(texts: seq<string>): seq<string> {
    if texts == [] then [] else (if texts[0] == "" then [] else [texts[0]]) + NotEmpty(texts[1..])
  }

  /** The texts with line breaks between them. */
  function Lines(texts: seq<string>): string {
    if texts == [] then "" else if |texts| == 1 then texts[0] else texts[0] + "\n" + Lines(texts[1..])
  }

  function StripImageBlocks(c: Content): Content {
    if c.Blocks? then Plain(Strip(Lines(NotEmpty(Texts(c.blocks))))) else c
  }

  function ContentText(c: Content): string {
    match c
    case Plain(text) => text
    case Blocks(blocks) => Strip(Lines(Texts(blocks)))
    case NoContent => ""
  }

  // ---- Which images a message is given ----

  function UrlOf(env: Env, item: Option<string>): Option<string> {
    if item.Some? && item.value != "" && env.isImage(item.value) then env.dataUrl(item.value) else None
  }

  /** The images that can be read, in path order. */
  function Readable(env: Env, items: seq<Option<string>>): seq<string> {
    if items == [] then []
    else
      var url := UrlOf(env, items[|items| - 1]);
      Readable(env, items[..|items| - 1]) + (if url.Some? then [url.value] else [])
  }

  function Candidates(env: Env, m: SeedMessage): seq<string> {
    if m.role == "user" && m.marker.Paths? then Readable(env, m.marker.items) else []
  }

  /** All candidates: the newest message first, path order within a message. */
  function AllCandidates(env: Env, messages: seq<SeedMessage>): seq<string> {
    if messages == [] then [] else AllCandidates(env, messages[1..]) + Candidates(env, messages[0])
  }

  function Take<T>(s: seq<T>, n: int): seq<T> {
    if n <= 0 then [] else if n >= |s| then s else s[..n]
  }

  function Budget(maxImages: int): nat {
    if maxImages < 0 then 0 else maxImages
  }

  /** What the newer messages leave of the budget for message `i`. */
  function Share(env: Env, messages: seq<SeedMessage>, budget: nat, i: nat): seq<string>
    requires i < |messages|
  {
    Take(Candidates(env, messages[i]), budget - |AllCandidates(env, messages[i + 1..])|)
  }

  function ImageBlocks(urls: seq<string>): seq<Block> {
    seq(|urls|, i requires 0 <= i < |urls| => Block("image_url", "", urls[i]))
  }

  function TextBlocks(text: string): seq<Block> {
    if text == "" then [] else [Block("text", text, "")]
  }

  function Rewritten(m: SeedMessage, supportsImage: bool, share: seq<string>): SeedMessage {
    var m' := m.(marker := NoMarker);
    if !supportsImage then (if HasImageBlock(m.content) then m'.(content := StripImageBlocks(m.content)) else m')
    else if share == [] then m'
    else m'.(content := Blocks(TextBlocks(ContentText(m.content)) + ImageBlocks(share)))
  }

  function RewrittenHistory(env: Env, messages: seq<SeedMessage>, supportsImage: bool, maxImages: int): seq<SeedMessage> {
    seq(|messages|, i requires 0 <= i < |messages| =>
      Rewritten(messages[i], supportsImage, Share(env, messages, Budget(maxImages), i)))
  }

  // ---- The loops ----

  lemma {:induction false} ReadablePrefix(env: Env, items: seq<Option<string>>, j: nat)
    requires j <= |items|
    ensures Readable(env, items[..j]) <= Readable(env, items)
  {
    if j < |items| {
      assert items[..|items| - 1][..j] == items[..j];
      ReadablePrefix(env, items[..|items| - 1], j);
    } else {
      assert items[..j] == items;
    }
  }

  method TakeImages(env: Env, items: seq<Option<string>>, remaining: nat) returns (urls: seq<string>)
    ensures urls == Take(Readable(env, items), remaining)
  {
    urls := [];
    var left := remaining;
    for j := 0 to |items|
      invariant urls == Readable(env, items[..j]) && left == remaining - |urls|
    {
      assert items[..j + 1][..j] == items[..j];
      if left <= 0 {
        ReadablePrefix(env, items, j);
        return;
      }
      var url := UrlOf(env, items[j]);
      if url.Some? {
        urls := urls + [url.value];
        left := left - 1;
      }
    }
    assert items[..|items|] == items;
  }

  function Left(budget: nat, used: nat): nat {
    if used >= budget then 0 else budget - used
  }

  lemma AllCandidatesFrom(env: Env, messages: seq<SeedMessage>, i: nat)
    requires i < |messages|
    ensures AllCandidates(env, messages[i..]) == AllCandidates(env, messages[i + 1..]) + Candidates(env, messages[i])
  {
    assert messages[i..][1..] == messages[i + 1..];
  }

  method RebuildVisionHistory(env: Env, messages: seq<SeedMessage>, supportsImage: bool, maxImages: int) returns (out: seq<SeedMessage>)
    ensures out == RewrittenHistory(env, messages, supportsImage, maxImages)
  {
    hide Readable, HasImageBlock, StripImageBlocks, ContentText, TextBlocks, ImageBlocks, AllCandidates;
    var remaining := Budget(maxImages);
    var rebuilt: seq<SeedMessage> := [];
    var i := |messages|;
    NoCandidates(env, messages[i..]);
    while i > 0
      invariant 0 <= i <= |messages| && |rebuilt| == |messages| - i
      invariant supportsImage ==> remaining == Left(Budget(maxImages), |AllCandidates(env, messages[i..])|)
      invariant forall k :: i <= k < |messages| ==>
        rebuilt[|messages| - 1 - k] == Rewritten(messages[k], supportsImage, Share(env, messages, Budget(maxImages), k))
    {
      i := i - 1;
      AllCandidatesFrom(env, messages, i);
      var m := messages[i].(marker := NoMarker);
      if !supportsImage {
        if HasImageBlock(m.content) {
          m := m.(content := StripImageBlocks(m.content));
        }
        rebuilt := rebuilt + [m];
        continue;
      }
      var paths := messages[i].marker;
      if m.role == "user" && paths.Paths? {
        var urls := TakeImages(env, paths.items, remaining);
        remaining := remaining - |urls|;
        if urls != [] {
          m := m.(content := Blocks(TextBlocks(ContentText(m.content)) + ImageBlocks(urls)));
        }
      }
      rebuilt := rebuilt + [m];
    }
    out := seq(|rebuilt|, k requires 0 <= k < |rebuilt| => rebuilt[|rebuilt| - 1 - k]);
  }

  lemma NoCandidates(env: Env, messages: seq<SeedMessage>)
    ensures messages == [] ==> AllCandidates(env, messages) == []
  {
  }

  // ---- What the rewriting achieves ----

  /** No message is lost, moved or given another role, and no marker goes downstream. */
  lemma ShapeKept(env: Env, messages: seq<SeedMessage>, supportsImage: bool, maxImages: int, i: nat)
    requires i < |messages|
    ensures var out := RewrittenHistory(env, messages, supportsImage, maxImages);
            |out| == |messages| && out[i].role == messages[i].role && out[i].rest == messages[i].rest && out[i].marker == NoMarker
  {
  }

  /** A model without vision is sent no image block. */
  lemma TextModelSeesNoImage(env: Env, messages: seq<SeedMessage>, maxImages: int)
    ensures forall m <- RewrittenHistory(env, messages, false, maxImages) :: !HasImageBlock(m.content)
  {
  }

  function ImageUrls(blocks: seq<Block>): seq<string> {
    if blocks == [] then []
    else (if IsImageBlock(blocks[0]) then [blocks[0].url] else []) + ImageUrls(blocks[1..])
  }

  function UrlsIn(c: Content): seq<string> {
    if c.Blocks? then ImageUrls(c.blocks) else []
  }

  /** The images of all messages, the newest message first. */
  function AllUrls(messages: seq<SeedMessage>): seq<string> {
    if messages == [] then [] else AllUrls(messages[1..]) + UrlsIn(messages[0].content)
  }

  lemma {:induction false} NoImageNoUrls(blocks: seq<Block>)
    ensures (forall b <- blocks :: !IsImageBlock(b)) <==> ImageUrls(blocks) == []
  {
    if blocks != [] {
      NoImageNoUrls(blocks[1..]);
      assert forall b :: b in blocks <==> b == blocks[0] || b in blocks[1..];
    }
  }

  lemma {:induction false} RebuiltUrls(urls: seq<string>)
    ensures ImageUrls(ImageBlocks(urls)) == urls
  {
    if urls != [] {
      RebuiltUrls(urls[1..]);
      assert ImageBlocks(urls)[1..] == ImageBlocks(urls[1..]);
      assert Lower("image_url") == "image_url";
    }
  }

  lemma SharedUrls(m: SeedMessage, share: seq<string>)
    ensures UrlsIn(Rewritten(m, true, share).content) == if share == [] then UrlsIn(m.content) else share
  {
    RebuiltUrls(share);
    var text := TextBlocks(ContentText(m.content));
    assert Lower("text") == "text";
    if text != [] {
      assert (text + ImageBlocks(share))[1..] == ImageBlocks(share);
    } else {
      assert text + ImageBlocks(share) == ImageBlocks(share);
    }
  }

  lemma TailShare(env: Env, messages: seq<SeedMessage>, budget: nat, i: nat)
    requires i + 1 < |messages|
    ensures Share(env, messages[1..], budget, i) == Share(env, messages, budget, i + 1)
  {
    hide Candidates, AllCandidates, Take;
    assert messages[1..][i + 1..] == messages[i + 2..];
  }

  lemma TailHistory(env: Env, messages: seq<SeedMessage>, maxImages: int)
    requires messages != []
    ensures RewrittenHistory(env, messages, true, maxImages)[1..] == RewrittenHistory(env, messages[1..], true, maxImages)
  {
    hide Share, Rewritten;
    forall i | 0 <= i < |messages| - 1
      ensures Share(env, messages[1..], Budget(maxImages), i) == Share(env, messages, Budget(maxImages), i + 1) {
      TailShare(env, messages, Budget(maxImages), i);
    }
  }

  lemma TakeSplit(a: seq<string>, b: seq<string>, n: nat)
    ensures Take(a + b, n) == Take(a, n) + Take(b, n - |a|)
  {
  }

  /** The images in the messages of `out` that were given a share, the newest message first. */
  function RebuiltImages(env: Env, messages: seq<SeedMessage>, out: seq<SeedMessage>, budget: nat): seq<string>
    requires |out| == |messages|
  {
    if messages == [] then []
    else
      RebuiltImages(env, messages[1..], out[1..], budget)
        + (if Share(env, messages, budget, 0) == [] then [] else UrlsIn(out[0].content))
  }

  /** Whatever the seed messages hold, the rebuilt images are exactly the first `maxImages` candidates, the
      newest message first and in path order within a message. */
  lemma {:induction false} NewestImagesFirst(env: Env, messages: seq<SeedMessage>, maxImages: int)
    ensures RebuiltImages(env, messages, RewrittenHistory(env, messages, true, maxImages), Budget(maxImages))
         == Take(AllCandidates(env, messages), Budget(maxImages))
  {
    hide Candidates, Rewritten, Take;
    if messages != [] {
      NewestImagesFirst(env, messages[1..], maxImages);
      TailHistory(env, messages, maxImages);
      SharedUrls(messages[0], Share(env, messages, Budget(maxImages), 0));
      TakeSplit(AllCandidates(env, messages[1..]), Candidates(env, messages[0]), Budget(maxImages));
    } else {
      TakeNothing(Budget(maxImages));
    }
  }

  /** A message that is given no share keeps its content as it was. */
  lemma UntouchedWithoutShare(env: Env, messages: seq<SeedMessage>, maxImages: int, i: nat)
    requires i < |messages| && Share(env, messages, Budget(maxImages), i) == []
    ensures RewrittenHistory(env, messages, true, maxImages)[i].content == messages[i].content
  {
    hide Share;
  }

  lemma {:induction false} NoOtherImages(env: Env, messages: seq<SeedMessage>, out: seq<SeedMessage>, budget: nat)
    requires |out| == |messages|
    requires forall i :: 0 <= i < |messages| && Share(env, messages, budget, i) == [] ==> UrlsIn(out[i].content) == []
    ensures AllUrls(out) == RebuiltImages(env, messages, out, budget)
  {
    hide Share;
    if messages != [] {
      forall i | 0 <= i < |messages| - 1
        ensures Share(env, messages[1..], budget, i) == Share(env, messages, budget, i + 1) {
        TailShare(env, messages, budget, i);
      }
      NoOtherImages(env, messages[1..], out[1..], budget);
    }
  }

  /** Where no seed message brings its own images, the rebuilt ones are all the images sent. */
  lemma OnlyRebuiltImages(env: Env, messages: seq<SeedMessage>, maxImages: int)
    requires forall m <- messages :: !HasImageBlock(m.content)
    ensures AllUrls(RewrittenHistory(env, messages, true, maxImages)) == Take(AllCandidates(env, messages), Budget(maxImages))
  {
    hide HasImageBlock, Share, Take;
    var out := RewrittenHistory(env, messages, true, maxImages);
    forall i | 0 <= i < |messages| && Share(env, messages, Budget(maxImages), i) == [] ensures UrlsIn(out[i].content) == [] {
      UntouchedWithoutShare(env, messages, maxImages, i);
      assert messages[i] in messages;
      OwnUrls(messages[i].content);
    }
    NoOtherImages(env, messages, out, Budget(maxImages));
    NewestImagesFirst(env, messages, maxImages);
  }

  lemma TakeNothing(n: nat)
    ensures Take<string>([], n) == []
  {
  }

  lemma OwnUrls(c: Content)
    ensures !HasImageBlock(c) ==> UrlsIn(c) == []
  {
    if c.Blocks? {
      NoImageNoUrls(c.blocks);
    }
  }

  /** The images that messages bring themselves and keep, because none of theirs was rebuilt. */
  function KeptInline(env: Env, messages: seq<SeedMessage>, budget: nat): nat {
    if messages == [] then 0
    else
      var own: nat := if Share(env, messages, budget, 0) == [] then |UrlsIn(messages[0].content)| else 0;
      KeptInline(env, messages[1..], budget) + own
  }

  /** In general the budget bounds only the rebuilt images: a message that gets none keeps what it brought. */
  lemma {:induction false} ImagesCounted(env: Env, messages: seq<SeedMessage>, maxImages: int)
    ensures |AllUrls(RewrittenHistory(env, messages, true, maxImages))|
         == |Take(AllCandidates(env, messages), Budget(maxImages))| + KeptInline(env, messages, Budget(maxImages))
  {
    hide Candidates, Rewritten, Take;
    if messages != [] {
      var tail, out := messages[1..], RewrittenHistory(env, messages, true, maxImages);
      ImagesCounted(env, tail, maxImages);
      TailHistory(env, messages, maxImages);
      SharedUrls(messages[0], Share(env, messages, Budget(maxImages), 0));
      TakeSplit(AllCandidates(env, tail), Candidates(env, messages[0]), Budget(maxImages));
    } else {
      TakeNothing(Budget(maxImages));
    }
  }

  lemma OneImageUrl(url: string)
    ensures ImageUrls([Block("image_url", "", url)]) == [url]
  {
    var b := Block("image_url", "", url);
    assert Lower("image_url") == "image_url";
    assert [b][1..] == [];
  }

  /** An image that is already in an unmarked message is sent even with no image allowed. */
  lemma InlineImageEscapesBudget(env: Env, m: SeedMessage)
    requires m.content == Blocks([Block("image_url", "", "data:x")]) && m.marker == NoMarker
    ensures |AllUrls(RewrittenHistory(env, [m], true, 0))| == 1
  {
    hide ImageUrls, Candidates, AllCandidates, Rewritten;
    var out := RewrittenHistory(env, [m], true, 0);
    assert Share(env, [m], 0, 0) == [];
    SharedUrls(m, []);
    OneImageUrl("data:x");
    assert out[1..] == [];
    assert out[0] == Rewritten(m, true, []);
  }

  // ---- Which images a message is given, told from its paths ----

  /** The item names an image that can be read, as `url`. */
  predicate Gives(env: Env, item: Option<string>, url: string) {
    item.Some? && item.value != "" && env.isImage(item.value) && env.dataUrl(item.value) == Some(url)
  }

  predicate GivesNothing(env: Env, item: Option<string>) {
    item.None? || item.value == "" || !env.isImage(item.value) || env.dataUrl(item.value).None?
  }

  /** `urls` holds what the first `j` items give, in their order. */
  predicate GivenBy(env: Env, items: seq<Option<string>>, j: nat, urls: seq<string>)
    requires j <= |items|
  {
    if j == 0 then urls == []
    else if GivesNothing(env, items[j - 1]) then GivenBy(env, items, j - 1, urls)
    else urls != [] && Gives(env, items[j - 1], urls[|urls| - 1]) && GivenBy(env, items, j - 1, urls[..|urls| - 1])
  }

  lemma {:induction false} ReadableGiven(env: Env, items: seq<Option<string>>, j: nat)
    requires j <= |items|
    ensures GivenBy(env, items, j, Readable(env, items[..j]))
  {
    if j > 0 {
      assert items[..j][..j - 1] == items[..j - 1];
      ReadableGiven(env, items, j - 1);
      var before := Readable(env, items[..j - 1]);
      var url := UrlOf(env, items[j - 1]);
      assert before + [] == before;
      if url.Some? {
        assert (before + [url.value])[..|before|] == before;
      }
    }
  }

  /** Only a user message with a list of paths has candidates: those of its paths that name readable images. */
  lemma CandidatesExactly(env: Env, m: SeedMessage)
    ensures if m.role == "user" && m.marker.Paths?
            then GivenBy(env, m.marker.items, |m.marker.items|, Candidates(env, m))
            else Candidates(env, m) == []
  {
    hide GivenBy, Readable;
    if m.marker.Paths? {
      ReadableGiven(env, m.marker.items, |m.marker.items|);
      assert m.marker.items[..|m.marker.items|] == m.marker.items;
    }
  }

  /** How many candidates the messages from `i` on have. */
  function CandidatesFrom(env: Env, messages: seq<SeedMessage>, i: nat): nat
    requires i <= |messages|
    decreases |messages| - i
  {
    if i == |messages| then 0 else |Candidates(env, messages[i])| + CandidatesFrom(env, messages, i + 1)
  }

  lemma {:induction false} CandidatesCounted(env: Env, messages: seq<SeedMessage>, i: nat)
    requires i <= |messages|
    ensures |AllCandidates(env, messages[i..])| == CandidatesFrom(env, messages, i)
    decreases |messages| - i
  {
    hide Candidates;
    if i < |messages| {
      CandidatesCounted(env, messages, i + 1);
      AllCandidatesFrom(env, messages, i);
    } else {
      NoCandidates(env, messages[i..]);
    }
  }

  /** A message is given its first candidates, as many as all newer ones leave of `maxImages`. */
  lemma ShareExactly(env: Env, messages: seq<SeedMessage>, maxImages: int, i: nat)
    requires i < |messages|
    ensures var all, share := Candidates(env, messages[i]), Share(env, messages, Budget(maxImages), i);
            var left := maxImages - CandidatesFrom(env, messages, i + 1);
            && share <= all
            && (left <= 0 ==> share == [])
            && (0 <= left <= |all| ==> |share| == left)
            && (|all| <= left ==> share == all)
  {
    hide Candidates, AllCandidates;
    CandidatesCounted(env, messages, i + 1);
  }

  // ---- What becomes of the text ----

  predicate IsTextBlock(b: Block) {
    b.Block? && Lower(b.kind) == "text"
  }

  /** The texts of the text blocks, in order. */
  function TextsIn(blocks: seq<Block>): seq<string> {
    if blocks == [] then []
    else
      var last := blocks[|blocks| - 1];
      TextsIn(blocks[..|blocks| - 1]) + (if IsTextBlock(last) then [last.text] else [])
  }

  function WithoutEmpty(texts: seq<string>): seq<string> {
    if texts == [] then []
    else
      var last := texts[|texts| - 1];
      WithoutEmpty(texts[..|texts| - 1]) + (if last == "" then [] else [last])
  }

  /** `texts` with a line break between each two. */
  function Joined(texts: seq<string>): string {
    if texts == [] then ""
    else if |texts| == 1 then texts[0]
    else Joined(texts[..|texts| - 1]) + "\n" + texts[|texts| - 1]
  }

  lemma {:induction false} TextsSnoc(blocks: seq<Block>, b: Block)
    ensures Texts(blocks + [b]) == Texts(blocks) + (if IsTextBlock(b) then [b.text] else [])
  {
    if blocks == [] {
      assert [b][1..] == [] && [] + [b] == [b];
    } else {
      TailOfSum(blocks, [b]);
      TextsSnoc(blocks[1..], b);
      Regroup(if IsTextBlock(blocks[0]) then [blocks[0].text] else [], Texts(blocks[1..]), if IsTextBlock(b) then [b.text] else []);
    }
  }

  lemma {:induction false} TextsAre(blocks: seq<Block>)
    ensures Texts(blocks) == TextsIn(blocks)
  {
    if blocks != [] {
      TextsAre(blocks[..|blocks| - 1]);
      TextsSnoc(blocks[..|blocks| - 1], blocks[|blocks| - 1]);
      assert blocks == blocks[..|blocks| - 1] + [blocks[|blocks| - 1]];
    }
  }

  lemma {:induction false} NotEmptySnoc(texts: seq<string>, t: string)
    ensures NotEmpty(texts + [t]) == NotEmpty(texts) + (if t == "" then [] else [t])
  {
    if texts == [] {
      assert [t][1..] == [] && [] + [t] == [t];
    } else {
      TailOfSum(texts, [t]);
      NotEmptySnoc(texts[1..], t);
      Regroup(if texts[0] == "" then [] else [texts[0]], NotEmpty(texts[1..]), if t == "" then [] else [t]);
    }
  }

  lemma {:induction false} NotEmptyAre(texts: seq<string>)
    ensures NotEmpty(texts) == WithoutEmpty(texts)
  {
    if texts != [] {
      NotEmptyAre(texts[..|texts| - 1]);
      NotEmptySnoc(texts[..|texts| - 1], texts[|texts| - 1]);
      assert texts == texts[..|texts| - 1] + [texts[|texts| - 1]];
    }
  }

  lemma {:induction false} LinesSnoc(texts: seq<string>, t: string)
    requires texts != []
    ensures Lines(texts + [t]) == Lines(texts) + "\n" + t
  {
    TailOfSum(texts, [t]);
    if |texts| == 1 {
      assert [t] == texts[1..] + [t];
    } else {
      LinesSnoc(texts[1..], t);
      Regroup(texts[0] + "\n", Lines(texts[1..]), "\n" + t);
      Regroup(Lines(texts[1..]), "\n", t);
      Regroup(texts[0] + "\n" + Lines(texts[1..]), "\n", t);
    }
  }

  lemma {:induction false} LinesAre(texts: seq<string>)
    ensures Lines(texts) == Joined(texts)
  {
    if |texts| > 1 {
      LinesAre(texts[..|texts| - 1]);
      LinesSnoc(texts[..|texts| - 1], texts[|texts| - 1]);
      assert texts == texts[..|texts| - 1] + [texts[|texts| - 1]];
    }
  }

  /** The text a rebuilt message starts with. */
  predicate IsTextOf(c: Content, t: string) {
    match c
    case Plain(text) => t == text
    case Blocks(blocks) => t == Strip(Joined(TextsIn(blocks)))
    case NoContent => t == ""
  }

  /** A message that is given images holds its text, if it has any, as one block, and then these images. */
  lemma RebuiltContent(env: Env, messages: seq<SeedMessage>, maxImages: int, i: nat) returns (t: string)
    requires i < |messages| && Share(env, messages, Budget(maxImages), i) != []
    ensures var share, c := Share(env, messages, Budget(maxImages), i), RewrittenHistory(env, messages, true, maxImages)[i].content;
      && IsTextOf(messages[i].content, t)
      && c.Blocks?
      && var first := if t == "" then 0 else 1;
         |c.blocks| == first + |share|
         && (t != "" ==> c.blocks[0] == Block("text", t, ""))
         && forall k :: 0 <= k < |share| ==> c.blocks[first + k] == Block("image_url", "", share[k])
  {
    hide Share, Texts, Lines, TextsIn, Joined;
    t := ContentText(messages[i].content);
    if messages[i].content.Blocks? {
      TextsAre(messages[i].content.blocks);
      LinesAre(TextsIn(messages[i].content.blocks));
    }
  }

  /** Without vision a message with an image block becomes its texts; any other keeps its content. */
  lemma StrippedContent(env: Env, messages: seq<SeedMessage>, maxImages: int, i: nat)
    requires i < |messages|
    ensures var was, now := messages[i].content, RewrittenHistory(env, messages, false, maxImages)[i].content;
      if was.Blocks? && exists k :: 0 <= k < |was.blocks| && IsImageBlock(was.blocks[k])
      then now == Plain(Strip(Joined(WithoutEmpty(TextsIn(was.blocks)))))
      else now == was
  {
    hide Share, Texts, Lines, TextsIn, Joined, NotEmpty, WithoutEmpty, IsImageBlock;
    var was := messages[i].content;
    if was.Blocks? {
      TextsAre(was.blocks);
      NotEmptyAre(TextsIn(was.blocks));
      LinesAre(WithoutEmpty(TextsIn(was.blocks)));
      if b :| b in was.blocks && IsImageBlock(b) {
        var k :| 0 <= k < |was.blocks| && was.blocks[k] == b;
      }
      if k :| 0 <= k < |was.blocks| && IsImageBlock(was.blocks[k]) {
        assert was.blocks[k] in was.blocks;
      }
    }
  }

  /** Kinds are compared without regard to the case of the letters A to Z. */
  lemma LowerExactly(s: string, i: nat)
    requires i < |s|
    ensures |Lower(s)| == |s|
    ensures 'A' <= s[i] <= 'Z' ==> Lower(s)[i] as int == s[i] as int + 32
    ensures !('A' <= s[i] <= 'Z') ==> Lower(s)[i] == s[i]
  {
  }
}
