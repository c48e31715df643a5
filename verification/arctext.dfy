/**
 * The Arc Text component's render decision: from its properties, the
 * render target and the connected graphic, choose between a placeholder, a
 * thrown error, or an SVG `<path>` + `<textPath>` with a path source, a
 * `viewBox`, a DOM id and a baseline keyword.
 *
 * The host framework is reduced to inputs: whether the component renders
 * on the editing canvas, the slot children as sequences, the markup that
 * `renderToString` produced for the connected layer, and the string hash
 * used for the id (passed in as a function).
 */
module ArcText {
  import opened Wrappers
  import opened ArcPath
  import opened JsStrings
  import opened SvgAttributes

  /** A layer's frame, with width and height already formatted as text. */
  datatype Frame = Frame(width: string, height: string)

  /** The first child of a connected graphic as seen on the canvas. */
  datatype Layer = Layer(frame: Option<Frame>, markup: string)

  /**
   * A connected graphic instance: its `svg` children (serialized markup, in
   * preview and on the published site) and its element children (canvas).
   */
  datatype Slot = Slot(svg: seq<string>, children: seq<Layer>)

  /** The component's properties that take part in the render decision. */
  datatype ArcProps = ArcProps(
    shape: string,
    cylinderHeight: real,
    flip: bool,
    alignmentBaseline: string,
    rotate: bool,
    animate: bool,
    slots: seq<Slot>)

  /** Why the component throws instead of rendering. */
  datatype Failure =
    | NoConnectedLayer   // `o.props` read on an undefined first child
    | NoAttributes       // `for … of` over the `null` of a regex without matches
    | NoViewBox          // `.split(">")` read on the `undefined` of `split("viewBox=")[1]`

  /** What the graphic branch produces. */
  datatype Extraction =
    | ShowPlaceholder
    | Extracted(data: Option<string>, viewBox: Option<string>)
    | Thrown(failure: Failure)

  /** The `d` attribute of the rendered `<path>`. */
  datatype PathSource = Scraped(data: Option<string>) | Procedural(commands: seq<Command>)

  /** The value hashed for the DOM id: scraped path data, or the procedural path. */
  datatype IdKey = DataKey(data: string) | PathKey(commands: seq<Command>)

  datatype Outcome =
    | Placeholder
    | Throws(failure: Failure)
    | Rendered(
        viewBox: Option<string>,
        path: PathSource,
        id: string,
        baseline: Option<string>,
        rotating: bool,
        animatingOffset: bool)

  /** The default `viewBox` of the procedural path. */
  const UnitViewBox: string := "0 0 100 100"

  /** The prefix of every DOM id. */
  const IdPrefix: string := "curve-"

  /** `m(e)`: the first child, or `undefined` when there is none. */
  function FirstChild<T>(children: seq<T>): (r: Option<T>)
    ensures r.None? <==> |children| == 0
    ensures r.Some? ==> r.value == children[0]
  {
    if |children| == 0 then None else Some(children[0])
  }

  /**
   * The source's `m`: walk every child and keep the first one, by assigning
   * only while nothing has been kept yet.
   */
  method FirstChildScan<T>(children: seq<T>) returns (t: Option<T>)
    ensures t == FirstChild(children)
  {
    t := None;
    var i := 0;
    while i < |children|
      invariant 0 <= i <= |children|
      invariant t == if i == 0 then None else Some(children[0])
    {
      if t.None? {
        t := Some(children[i]);
      }
      i := i + 1;
    }
  }

  /** The graphic branch runs only when a slot is connected and the type is `graphic`. */
  predicate GraphicMode(p: ArcProps) {
    |p.slots| > 0 && p.shape == "graphic"
  }

  /** The path offset `t`: half the cylinder height for an ellipse, zero for anything else. */
  function Offset(shape: string, cylinderHeight: real): (t: real)
    ensures shape == "ellipse" ==> 2.0 * t == cylinderHeight
    ensures shape != "ellipse" ==> t == 0.0
  {
    if shape == "ellipse" then cylinderHeight / 2.0 else 0.0
  }

  /**
   * The three consecutive tests that set `dominantBaseline`; a later test
   * overwrites an earlier one, and no test matching leaves it undefined.
   */
  function DominantBaseline(alignment: string): (d: Option<string>)
    ensures alignment == "top" <==> d == Some("Text Top")
    ensures alignment == "center" <==> d == Some("Central")
    ensures alignment == "bottom" <==> d == Some("Hanging")
    ensures d.None? <==> alignment != "top" && alignment != "center" && alignment != "bottom"
  {
    var d0: Option<string> := None;
    var d1 := if alignment == "top" then Some("Text Top") else d0;
    var d2 := if alignment == "center" then Some("Central") else d1;
    var d3 := if alignment == "bottom" then Some("Hanging") else d2;
    d3
  }

  /** The canvas `viewBox`, built from the layer's frame. */
  function CanvasViewBox(f: Frame): string {
    "0 0 " + f.width + " " + f.height
  }

  /**
   * The canvas `viewBox` is the four fields `0`, `0`, width and height
   * separated by single spaces: splitting it on spaces gives the frame back.
   */
  lemma CanvasViewBoxFields(f: Frame)
    requires ' ' !in f.width && ' ' !in f.height
    ensures Split(CanvasViewBox(f), " ") == ["0", "0", f.width, f.height]
  {
    var parts := ["0", "0", f.width, f.height];
    var sp := [' '];
    assert Join(parts, sp) == CanvasViewBox(f) by {
      assert parts[1..][1..][1..] == [f.height];
      assert Join(parts[1..][1..], sp) == f.width + sp + f.height;
      assert Join(parts[1..], sp) == "0" + sp + f.width + sp + f.height;
      assert "0 0 " == "0" + sp + "0" + sp;
    }
    SplitJoinChar(parts, ' ');
  }

  /**
   * The graphic branch. On the canvas: the first child of the connected
   * layer must exist (else `o.props` throws); without a frame the placeholder
   * shows; otherwise the `viewBox` comes from the frame and the path data
   * from the rendered markup. Elsewhere: the first `svg` child, when it is a
   * non-empty string, gives both the `viewBox` and the path data; when it is
   * missing or empty nothing is extracted.
   */
  function ExtractGraphic(slot: Slot, canvas: bool): (x: Extraction)
    ensures x.ShowPlaceholder? <==> canvas && |slot.children| > 0 && slot.children[0].frame.None?
    ensures x == Thrown(NoConnectedLayer) <==> canvas && |slot.children| == 0
    ensures x == Thrown(NoViewBox) <==>
      !canvas && |slot.svg| > 0 && |slot.svg[0]| > 0 && !Includes(slot.svg[0], ViewBoxKey)
    ensures x.Extracted? && canvas ==> x.viewBox.Some?
    ensures x.Extracted? && x.data.Some? ==> x.viewBox.Some?
  {
    if canvas then
      match FirstChild(slot.children)
      case None => Thrown(NoConnectedLayer)
      case Some(o) =>
        match o.frame
        case None => ShowPlaceholder
        case Some(f) =>
          match Tokenize(o.markup)
          case None => Thrown(NoAttributes)
          case Some(toks) => Extracted(LastPathData(toks), Some(CanvasViewBox(f)))
    else
      match FirstChild(slot.svg)
      case None => Extracted(None, None)
      case Some(l) =>
        if |l| == 0 then Extracted(None, None)
        else
          match MarkupViewBox(l)
          case None => Thrown(NoViewBox)
          case Some(r) =>
            match Tokenize(l)
            case None => Thrown(NoAttributes)
            case Some(toks) => Extracted(LastPathData(toks), Some(r))
  }

  /** `a || V`: the scraped data when it is a non-empty string, else the procedural path. */
  function IdKeyOf(data: Option<string>, procedural: seq<Command>): (k: IdKey)
    ensures k.DataKey? <==> data.Some? && data.value != ""
    ensures k.DataKey? ==> k.data == data.value
    ensures k.PathKey? ==> k.commands == procedural
  {
    if data.Some? && data.value != "" then DataKey(data.value) else PathKey(procedural)
  }

  /**
   * The whole render decision of the component. `hash` stands for the
   * string hash that turns the id key into the suffix of the DOM id.
   */
  function Render(p: ArcProps, canvas: bool, hash: IdKey -> string): (r: Outcome)
    ensures r.Placeholder? ==> canvas && GraphicMode(p)
    ensures r.Throws? ==> GraphicMode(p)
    ensures r.Rendered? ==> |IdPrefix| <= |r.id| && r.id[..|IdPrefix|] == IdPrefix
    ensures r.Rendered? ==> (r.path.Procedural? <==> !GraphicMode(p))
  {
    var t := Offset(p.shape, p.cylinderHeight);
    var v := ArcPath.ArcPath(p.flip, t);
    var graphic := GraphicMode(p);
    var x := if graphic then ExtractGraphic(FirstChild(p.slots).value, canvas) else Extracted(None, None);
    match x
    case ShowPlaceholder => Placeholder
    case Thrown(f) => Throws(f)
    case Extracted(a, vb) =>
      Rendered(
        if graphic then vb else Some(UnitViewBox),
        if graphic then Scraped(a) else Procedural(v),
        IdPrefix + hash(IdKeyOf(a, v)),
        DominantBaseline(p.alignmentBaseline),
        p.shape == "circle" && p.rotate,
        !canvas && p.animate)
  }

  /** The procedural path for the component's shape, flip and cylinder height. */
  function ProceduralPath(p: ArcProps): seq<Command> {
    ArcPath.ArcPath(p.flip, Offset(p.shape, p.cylinderHeight))
  }

  /**
   * Without a connected graphic (or with a type other than `graphic`) the
   * component always renders the procedural path in the unit viewBox, and
   * its id hashes that path.
   */
  lemma NoGraphicRendersProcedural(p: ArcProps, canvas: bool, hash: IdKey -> string)
    requires !GraphicMode(p)
    ensures Render(p, canvas, hash).Rendered?
    ensures Render(p, canvas, hash).viewBox == Some(UnitViewBox)
    ensures Render(p, canvas, hash).path == Procedural(ProceduralPath(p))
    ensures Render(p, canvas, hash).id == IdPrefix + hash(PathKey(ProceduralPath(p)))
  {
  }

  /**
   * Choosing the `graphic` type is not enough: with no slot connected the
   * component falls back to the procedural path and its unit `viewBox`.
   */
  lemma UnconnectedGraphicIsProcedural(p: ArcProps, canvas: bool, hash: IdKey -> string)
    requires p.shape == "graphic" && |p.slots| == 0
    ensures Render(p, canvas, hash).Rendered?
    ensures Render(p, canvas, hash).viewBox == Some(UnitViewBox)
    ensures Render(p, canvas, hash).path == Procedural(ProceduralPath(p))
  {
    NoGraphicRendersProcedural(p, canvas, hash);
  }

  /**
   * The placeholder shows exactly on the canvas, in graphic mode, when the
   * connected layer's first child has no frame.
   */
  lemma PlaceholderIff(p: ArcProps, canvas: bool, hash: IdKey -> string)
    ensures Render(p, canvas, hash).Placeholder? <==>
      canvas && GraphicMode(p) && |p.slots[0].children| > 0 && p.slots[0].children[0].frame.None?
  {
  }

  /** The markup the path data is scraped from, when there is one. */
  function GraphicMarkup(slot: Slot, canvas: bool): Option<string> {
    if canvas then
      if |slot.children| > 0 && slot.children[0].frame.Some? then Some(slot.children[0].markup) else None
    else if |slot.svg| > 0 && |slot.svg[0]| > 0 then Some(slot.svg[0]) else None
  }

  /**
   * The component throws exactly in graphic mode when: on the canvas the
   * layer has no first child; or the markup to scrape exists but lacks
   * `viewBox=` (outside the canvas) or has no `name="value"` token at all.
   */
  lemma ThrowsIff(p: ArcProps, canvas: bool, hash: IdKey -> string)
    ensures Render(p, canvas, hash).Throws? <==>
      GraphicMode(p) && (
        (canvas && |p.slots[0].children| == 0) ||
        (!canvas && GraphicMarkup(p.slots[0], canvas).Some? &&
          !Includes(GraphicMarkup(p.slots[0], canvas).value, ViewBoxKey)) ||
        (GraphicMarkup(p.slots[0], canvas).Some? &&
          Tokenize(GraphicMarkup(p.slots[0], canvas).value).None?))
  {
  }

  /**
   * In graphic mode a rendered path carries the data of the last token of
   * the scraped markup that contains `d=` (none when there is no markup),
   * and the `viewBox` is the frame's on the canvas and the markup's elsewhere.
   */
  lemma GraphicRendersScrapedData(p: ArcProps, canvas: bool, hash: IdKey -> string)
    requires GraphicMode(p)
    ensures var r, m := Render(p, canvas, hash), GraphicMarkup(p.slots[0], canvas);
      r.Rendered? ==>
        r.path == Scraped(if m.Some? then LastPathData(Tokenize(m.value).value) else None)
    ensures var r := Render(p, canvas, hash);
      r.Rendered? && canvas ==> r.viewBox == Some(CanvasViewBox(p.slots[0].children[0].frame.value))
    ensures var r, m := Render(p, canvas, hash), GraphicMarkup(p.slots[0], canvas);
      r.Rendered? && !canvas ==> r.viewBox == (if m.Some? then MarkupViewBox(m.value) else None)
  {
  }

  /**
   * The id is `curve-` followed by the hash of the scraped data when that is
   * a non-empty string, and of the procedural path otherwise; so two renders
   * with the same key always get the same id.
   */
  lemma IdHashesKey(p: ArcProps, canvas: bool, hash: IdKey -> string)
    requires Render(p, canvas, hash).Rendered?
    ensures var r := Render(p, canvas, hash);
      r.id == IdPrefix + hash(IdKeyOf(if r.path.Scraped? then r.path.data else None, ProceduralPath(p)))
  {
  }

  /**
   * The baseline is one of the three keywords or undefined, chosen by the
   * alignment alone; rotation needs a circle with `rotate`; the offset
   * animation never runs on the canvas.
   */
  lemma TextPlacement(p: ArcProps, canvas: bool, hash: IdKey -> string)
    requires Render(p, canvas, hash).Rendered?
    ensures var r := Render(p, canvas, hash);
      r.baseline in {None, Some("Text Top"), Some("Central"), Some("Hanging")}
    ensures Render(p, canvas, hash).baseline == DominantBaseline(p.alignmentBaseline)
    ensures Render(p, canvas, hash).rotating <==> p.shape == "circle" && p.rotate
    ensures Render(p, canvas, hash).animatingOffset <==> !canvas && p.animate
  {
  }

  /** The two levels of the rendered path sum to 100, and sit at 50 unless the shape is an ellipse. */
  lemma OffsetLevels(shape: string, cylinderHeight: real)
    ensures Upper(Offset(shape, cylinderHeight)) + Lower(Offset(shape, cylinderHeight)) == 100.0
    ensures shape != "ellipse" ==>
      Upper(Offset(shape, cylinderHeight)) == 50.0 && Lower(Offset(shape, cylinderHeight)) == 50.0
    ensures shape == "ellipse" ==> Lower(Offset(shape, cylinderHeight)) - Upper(Offset(shape, cylinderHeight)) == cylinderHeight
  {
    LevelsSumTo100(Offset(shape, cylinderHeight));
  }
}
