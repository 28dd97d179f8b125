/** odiff_py/utils.py: the frame selection of `png_images_to_apng_bytes`, the
    `APNG` record and the `<img>` tag its `__str__` renders.  The APNG
    assembler is a function parameter that turns the frames into bytes. */
module Utils {
  import opened Results
  import opened Text
  import opened Base64

  // ---------------------------------------------------------------------------
  // Frames

  /** A frame added to the assembler: the image and its delay
      `delayNum / delayDen` seconds. */
  datatype Frame<I> = Frame(image: I, delayNum: int, delayDen: int)

  const DefaultDelayNum: int := 500
  const DefaultDelayDen: int := 1000

  /** The frames the loop of `png_images_to_apng_bytes` adds for `images`:
      one per present image, in order, all with the same delay. */
  function FramesOf<I>(images: seq<Option<I>>, delayNum: int, delayDen: int): (r: seq<Frame<I>>)
    ensures |r| <= |images|
    ensures forall i :: 0 <= i < |r| ==> r[i].delayNum == delayNum && r[i].delayDen == delayDen
  {
    if |images| == 0 then []
    else
      var last := images[|images| - 1];
      FramesOf(images[..|images| - 1], delayNum, delayDen)
        + (if last.Some? then [Frame(last.value, delayNum, delayDen)] else [])
  }

  /** The assembler object: it collects frames in the order they are added. */
  class Assembler<I> {
    var frames: seq<Frame<I>>

    constructor ()
      ensures frames == []
    {
      frames := [];
    }

    /** `add_frame_from_pillow`. */
    method AddFrame(image: I, delayNum: int, delayDen: int)
      modifies this
      ensures frames == old(frames) + [Frame(image, delayNum, delayDen)]
    {
      frames := frames + [Frame(image, delayNum, delayDen)];
    }
  }

  /** `png_images_to_apng_bytes`: adds every image that is not `None`, then
      assembles the frames with `assemble`. */
  method PngImagesToApngBytes<I>(images: seq<Option<I>>, assemble: seq<Frame<I>> -> seq<byte>,
                                 delayNum: int, delayDen: int)
    returns (data: seq<byte>)
    ensures data == assemble(FramesOf(images, delayNum, delayDen))
  {
    var apngasm := new Assembler<I>();
    var i := 0;
    while i < |images|
      invariant 0 <= i <= |images|
      invariant apngasm.frames == FramesOf(images[..i], delayNum, delayDen)
    {
      assert images[..i + 1][..i] == images[..i];
      if images[i].Some? {
        apngasm.AddFrame(images[i].value, delayNum, delayDen);
      }
      i := i + 1;
    }
    assert images[..i] == images;
    data := assemble(apngasm.frames);
  }

  // Properties of the frame selection

  /** Frame selection distributes over concatenation, so it keeps the input
      order. */
  lemma {:induction false} FramesOfAppend<I>(a: seq<Option<I>>, b: seq<Option<I>>, delayNum: int, delayDen: int)
    ensures FramesOf(a + b, delayNum, delayDen) == FramesOf(a, delayNum, delayDen) + FramesOf(b, delayNum, delayDen)
  {
    if b == [] {
      assert a + b == a;
    } else {
      var b' := b[..|b| - 1];
      assert (a + b)[..|a + b| - 1] == a + b';
      assert (a + b)[|a + b| - 1] == b[|b| - 1];
      FramesOfAppend(a, b', delayNum, delayDen);
    }
  }

  /** A present image gives one frame, `None` gives none. */
  lemma FramesOfOne<I>(x: Option<I>, delayNum: int, delayDen: int)
    ensures FramesOf([x], delayNum, delayDen) == if x.Some? then [Frame(x.value, delayNum, delayDen)] else []
  {
    assert [x][..0] == [];
  }

  /** Appending `None` to the input changes neither the frames nor the output. */
  lemma AppendNone<I>(images: seq<Option<I>>, delayNum: int, delayDen: int)
    ensures FramesOf(images + [None], delayNum, delayDen) == FramesOf(images, delayNum, delayDen)
  {
    FramesOfAppend(images, [None], delayNum, delayDen);
    FramesOfOne<I>(None, delayNum, delayDen);
    assert FramesOf(images, delayNum, delayDen) + [] == FramesOf(images, delayNum, delayDen);
  }

  /** The number of images that are not `None`. */
  function PresentCount<I>(images: seq<Option<I>>): nat {
    if |images| == 0 then 0
    else PresentCount(images[..|images| - 1]) + (if images[|images| - 1].Some? then 1 else 0)
  }

  /** One frame per present image. */
  lemma {:induction false} FrameCount<I>(images: seq<Option<I>>, delayNum: int, delayDen: int)
    ensures |FramesOf(images, delayNum, delayDen)| == PresentCount(images)
  {
    if images != [] {
      FrameCount(images[..|images| - 1], delayNum, delayDen);
    }
  }

  /** An image is the subject of a frame exactly when it is present in the
      input: every frame shows a present image, and every present image has
      a frame. */
  lemma {:induction false} FrameImages<I>(images: seq<Option<I>>, delayNum: int, delayDen: int)
    ensures forall i :: 0 <= i < |FramesOf(images, delayNum, delayDen)| ==>
      Some(FramesOf(images, delayNum, delayDen)[i].image) in images
    ensures forall k :: 0 <= k < |images| && images[k].Some? ==>
      exists i :: 0 <= i < |FramesOf(images, delayNum, delayDen)| && FramesOf(images, delayNum, delayDen)[i].image == images[k].value
  {
    if images != [] {
      var init := images[..|images| - 1];
      FrameImages(init, delayNum, delayDen);
      var f, g := FramesOf(images, delayNum, delayDen), FramesOf(init, delayNum, delayDen);
      forall i | 0 <= i < |f| ensures Some(f[i].image) in images {
        if i < |g| {
          assert f[i] == g[i];
          assert Some(g[i].image) in init;
          var k :| 0 <= k < |init| && init[k] == Some(g[i].image);
          assert images[k] == init[k];
        } else {
          assert images[|images| - 1] == Some(f[i].image);
        }
      }
      forall k | 0 <= k < |images| && images[k].Some?
        ensures exists i :: 0 <= i < |f| && f[i].image == images[k].value
      {
        if k < |init| {
          assert init[k] == images[k] && init[k].Some?;
          assert exists i :: 0 <= i < |g| && g[i].image == init[k].value;
          var i :| 0 <= i < |g| && g[i].image == images[k].value;
          assert f[i] == g[i];
        } else {
          assert f[|g|].image == images[k].value;
        }
      }
    }
  }

  // ---------------------------------------------------------------------------
  // The APNG record

  /** `APNG`: the assembled bytes and whether the checker-board background
      is drawn behind the image. */
  datatype Apng = Apng(data: seq<byte>, useCheckerTransparency: bool)

  /** `APNG.from_images`: the bytes of the present images' frames, with the
      checker-board background switched on. */
  method FromImages<I>(images: seq<Option<I>>, assemble: seq<Frame<I>> -> seq<byte>, delayNum: int, delayDen: int)
    returns (a: Apng)
    ensures a == Apng(assemble(FramesOf(images, delayNum, delayDen)), true)
  {
    var data := PngImagesToApngBytes(images, assemble, delayNum, delayDen);
    a := Apng(data, true);
  }

  /** `CHECKER_TRANSPARENCY_CSS`: the lines of the style sheet joined with
      single spaces; the text starts with a line break, so the first line is
      empty. */
  const CheckerTransparencyLines: seq<string> :=
    [ "",
      "background: -webkit-linear-gradient(45deg, rgba(0, 0, 0, 0.0980392) 25%, transparent 25%, transparent 75%, rgba(0, 0, 0, 0.0980392) 75%, rgba(0, 0, 0, 0.0980392) 0), -webkit-linear-gradient(45deg, rgba(0, 0, 0, 0.0980392) 25%, transparent 25%, transparent 75%, rgba(0, 0, 0, 0.0980392) 75%, rgba(0, 0, 0, 0.0980392) 0), white;",
      "background: -moz-linear-gradient(45deg, rgba(0, 0, 0, 0.0980392) 25%, transparent 25%, transparent 75%, rgba(0, 0, 0, 0.0980392) 75%, rgba(0, 0, 0, 0.0980392) 0), -moz-linear-gradient(45deg, rgba(0, 0, 0, 0.0980392) 25%, transparent 25%, transparent 75%, rgba(0, 0, 0, 0.0980392) 75%, rgba(0, 0, 0, 0.0980392) 0), white;",
      "background: linear-gradient(45deg, rgba(0, 0, 0, 0.0980392) 25%, transparent 25%, transparent 75%, rgba(0, 0, 0, 0.0980392) 75%, rgba(0, 0, 0, 0.0980392) 0), linear-gradient(45deg, rgba(0, 0, 0, 0.0980392) 25%, transparent 25%, transparent 75%, rgba(0, 0, 0, 0.0980392) 75%, rgba(0, 0, 0, 0.0980392) 0), white;",
      "background-repeat: repeat, repeat;",
      "background-position: 0px 0, 5px 5px;",
      "-webkit-transform-origin: 0 0 0;",
      "transform-origin: 0 0 0;",
      "-webkit-background-origin: padding-box, padding-box;",
      "background-origin: padding-box, padding-box;",
      "-webkit-background-clip: border-box, border-box;",
      "background-clip: border-box, border-box;",
      "-webkit-background-size: 10px 10px, 10px 10px;",
      "background-size: 10px 10px, 10px 10px;",
      "-webkit-box-shadow: none;",
      "box-shadow: none;",
      "text-shadow: none;",
      "-webkit-transition: none;",
      "-moz-transition: none;",
      "-o-transition: none;",
      "transition: none;",
      "-webkit-transform: scaleX(1) scaleY(1) scaleZ(1);",
      "transform: scaleX(1) scaleY(1) scaleZ(1);" ]
  const CheckerTransparencyCss: string := JoinWith(" ", CheckerTransparencyLines)

  // ---------------------------------------------------------------------------
  // The <img> tag

  const StyleOpen: string := "<img style=\""
  const BorderStyle: string := "border: 1px solid; "
  const SrcOpen: string := "\" src=\""
  const DataPrefix: string := "data:image/apng;base64,"
  const TagClose: string := "\">"

  /** The value of the `style` attribute: the border, then the style sheet
      `css` when the checker-board background is switched on (`is True`). */
  function Style(useCheckerTransparency: bool, css: string): string {
    BorderStyle + (if useCheckerTransparency then css else "")
  }

  function ImgTag(style: string, payload: string): string {
    StyleOpen + style + SrcOpen + DataPrefix + payload + TagClose
  }

  /** The tag `APNG.__str__` renders, for a given checker-board style sheet:
      an `<img>` whose source is a data URL holding the base64 encoding of
      the bytes. */
  function Render(a: Apng, css: string): string {
    ImgTag(Style(a.useCheckerTransparency, css), Encode(a.data))
  }

  /** `APNG.__str__`. */
  function Str(a: Apng): string {
    Render(a, CheckerTransparencyCss)
  }

  /** `APNG._repr_markdown_`, which renders the same tag as `__str__`. */
  function ReprMarkdown(a: Apng): (r: string)
    ensures r == Str(a)
    ensures ApngOfTag(r, CheckerTransparencyCss) == Some(a)
  {
    StrRoundTrip(a);
    Str(a)
  }

  // A reader for the tag: the partner of `Render`.

  /** The position just after the last `"` of `s`, or 0 when there is none. */
  function AfterLastQuote(s: string): (k: nat)
    ensures k <= |s|
    ensures k > 0 ==> s[k - 1] == '"'
    ensures forall i :: k <= i < |s| ==> s[i] != '"'
  {
    if |s| == 0 then 0
    else if s[|s| - 1] == '"' then |s|
    else AfterLastQuote(s[..|s| - 1])
  }

  /** Reads the style and the payload back from a tag; the payload is the
      text after the last `"`, which base64 text never contains. */
  function ParseImgTag(s: string): Option<(string, string)> {
    if |s| < |StyleOpen| + |TagClose| || s[..|StyleOpen|] != StyleOpen || s[|s| - |TagClose|..] != TagClose then None
    else
      var body := s[|StyleOpen|..|s| - |TagClose|];
      var k := AfterLastQuote(body);
      var head, tail := body[..k], body[k..];
      if k < |SrcOpen| || head[k - |SrcOpen|..] != SrcOpen || !HasPrefix(tail, DataPrefix) then None
      else Some((head[..k - |SrcOpen|], tail[|DataPrefix|..]))
  }

  /** Reads an `APNG` back from a tag rendered with the style sheet `css`. */
  function ApngOfTag(s: string, css: string): Option<Apng> {
    match ParseImgTag(s)
    case None => None
    case Some((style, payload)) =>
      match Decode(payload)
      case None => None
      case Some(data) =>
        if style == Style(true, css) then Some(Apng(data, true))
        else if style == Style(false, css) then Some(Apng(data, false))
        else None
  }

  lemma {:induction false} AfterLastQuoteOf(x: string, y: string)
    requires forall i :: 0 <= i < |y| ==> y[i] != '"'
    ensures AfterLastQuote(x + ['"'] + y) == |x| + 1
  {
    var s := x + ['"'] + y;
    if y != [] {
      var y' := y[..|y| - 1];
      assert s[..|s| - 1] == x + ['"'] + y';
      AfterLastQuoteOf(x, y');
    } else {
      assert s[|s| - 1] == '"';
    }
  }

  /** The data URL after the last quote holds no quote either. */
  lemma DataUrlHasNoQuote(payload: string)
    requires forall i :: 0 <= i < |payload| ==> payload[i] != '"'
    ensures forall i :: 0 <= i < |DataPrefix + payload| ==> (DataPrefix + payload)[i] != '"'
  {
    var y := DataPrefix + payload;
    forall i | 0 <= i < |y| ensures y[i] != '"' {
      if i >= |DataPrefix| { assert y[i] == payload[i - |DataPrefix|]; }
    }
  }

  lemma TagBody(style: string, payload: string)
    ensures var s := ImgTag(style, payload);
      && |s| >= |StyleOpen| + |TagClose|
      && s[..|StyleOpen|] == StyleOpen
      && s[|s| - |TagClose|..] == TagClose
      && s[|StyleOpen|..|s| - |TagClose|] == (style + SrcOpen[..|SrcOpen| - 1]) + ['"'] + (DataPrefix + payload)
  {
    var s := ImgTag(style, payload);
    var body := (style + SrcOpen[..|SrcOpen| - 1]) + ['"'] + (DataPrefix + payload);
    assert s == StyleOpen + body + TagClose;
  }

  /** The tag reads back as the style and payload it was built from, so long
      as the payload holds no `"`. */
  lemma ParseImgTagOf(style: string, payload: string)
    requires forall i :: 0 <= i < |payload| ==> payload[i] != '"'
    ensures ParseImgTag(ImgTag(style, payload)) == Some((style, payload))
  {
    var x, y := style + SrcOpen[..|SrcOpen| - 1], DataPrefix + payload;
    var body := x + ['"'] + y;
    TagBody(style, payload);
    DataUrlHasNoQuote(payload);
    AfterLastQuoteOf(x, y);
    assert body[..|x| + 1] == style + SrcOpen;
    assert body[|x| + 1..] == y;
    PrefixOfAppend(DataPrefix, payload);
  }

  /** A rendered tag reads back as the `APNG` it shows: the payload decodes
      to its bytes, and the style sheet is there exactly when the flag is
      set. */
  lemma RenderRoundTrip(a: Apng, css: string)
    requires css != ""
    ensures ParseImgTag(Render(a, css)) == Some((Style(a.useCheckerTransparency, css), Encode(a.data)))
    ensures ApngOfTag(Render(a, css), css) == Some(a)
  {
    var payload := Encode(a.data);
    forall i | 0 <= i < |payload| ensures payload[i] != '"' {
      assert IsBase64Char(payload[i]);
    }
    ParseImgTagOf(Style(a.useCheckerTransparency, css), payload);
    DecodeEncode(a.data);
    assert |Style(true, css)| != |Style(false, css)|;
  }

  /** The checker-board style sheet is not empty. */
  lemma CssNotEmpty()
    ensures CheckerTransparencyCss != ""
  {
    var l := CheckerTransparencyLines;
    assert CheckerTransparencyCss == l[0] + " " + JoinWith(" ", l[1..]);
  }

  /** `__str__` of an `APNG` reads back as that `APNG`. */
  lemma StrRoundTrip(a: Apng)
    ensures ApngOfTag(Str(a), CheckerTransparencyCss) == Some(a)
  {
    CssNotEmpty();
    RenderRoundTrip(a, CheckerTransparencyCss);
  }
}
