/** The plugin object: the image it found, whether that image has loaded and how large it is,
    the stored and the resolved safe area, and the last placement pushed to the element.
    DOM reads become parameters (the container's size, the CSS `background-image` value) and
    the DOM write `_update` becomes the field `applied`. */
module BackgroundCover {
  import opened Wrappers
  import opened JsMath
  import opened SafeArea
  import opened Layout
  import opened ImageUrl

  /** The one JavaScript error the plugin's own code can raise once created. */
  datatype JsError = TypeError  // reading a property of `undefined`

  /** `this.safearea`: never assigned, or the area `setSafearea` last resolved. */
  datatype SafeAreaState = Unset | Resolved(area: Area)

  class Plugin {
    /** `settings.image`: the configured image, `None` for `null`. */
    var settingsImage: Option<string>
    /** `settings.safearea`: the most recently requested safe-area specification. */
    var settingsSafearea: string
    /** `this.image`. */
    var image: Option<string>
    var loaded: bool
    var imageWidth: real
    var imageHeight: real
    var safearea: SafeAreaState
    /** The arguments of the last `_update` call, if any. */
    var applied: Option<Placement>

    /** A loaded image has a size. */
    predicate Valid()
      reads this
    {
      loaded ==> imageWidth > 0.0 && imageHeight > 0.0
    }

    /** The merged settings of `new Plugin(element, options)`; the JavaScript constructor then
        calls `init`, which is `Init`. */
    constructor(image: Option<string>, safearea: string)
      ensures Valid()
      ensures settingsImage == image && settingsSafearea == safearea && this.image == image
      ensures !loaded && this.safearea == Unset && applied == None
    {
      settingsImage := image;
      settingsSafearea := safearea;
      this.image := image;
      loaded := false;
      imageWidth := 0.0;
      imageHeight := 0.0;
      this.safearea := Unset;
      applied := None;
    }

    /** `init`: settles on the image, or raises one of its two errors; the image then starts
        loading. `cssImage` is the element's `background-image` value. */
    method Init(cssImage: string) returns (r: Outcome<UrlError>)
      requires Valid()
      modifies this
      ensures Valid()
      ensures var found := ResolveImage(settingsImage, cssImage);
        (found.Success? ==> r == Pass && image == Some(found.value) && !loaded)
        && (found.Failure? ==> r == Fail(found.error) && image == settingsImage && loaded == old(loaded))
      ensures settingsImage == old(settingsImage) && settingsSafearea == old(settingsSafearea)
      ensures imageWidth == old(imageWidth) && imageHeight == old(imageHeight)
      ensures safearea == old(safearea) && applied == old(applied)
    {
      image := settingsImage;
      if image.None? || image.value == [] {
        if cssImage == [] {
          return Fail(NoBackgroundImage);
        }
        var found := Match(cssImage, 0);
        if found.None? {
          return Fail(NotRetrievable);
        }
        image := Some(found.value);
      }
      loaded := false;
      r := Pass;
    }

    /** `layout`: nothing before the image has loaded; otherwise the placement for a
        container of `nodeW` by `nodeH`, pushed out as `_update` would be. */
    method Layout(nodeW: real, nodeH: real) returns (r: Outcome<JsError>)
      requires Valid() && nodeW > 0.0 && nodeH > 0.0
      modifies this
      ensures Valid()
      ensures settingsImage == old(settingsImage) && settingsSafearea == old(settingsSafearea)
      ensures image == old(image) && loaded == old(loaded) && safearea == old(safearea)
      ensures imageWidth == old(imageWidth) && imageHeight == old(imageHeight)
      ensures !loaded ==> r == Pass && applied == old(applied)
      ensures loaded && safearea.Unset? ==> r == Fail(TypeError) && applied == old(applied)
      ensures loaded && safearea.Resolved? ==>
        r == Pass && applied == Some(Place(nodeW, nodeH, imageWidth, imageHeight, safearea.area))
    {
      if !loaded {
        return Pass;
      }
      if safearea.Unset? {
        return Fail(TypeError);
      }
      var placement := Arrange(nodeW, nodeH, imageWidth, imageHeight, safearea.area);
      applied := Some(placement);
      r := Pass;
    }

    /** `setSafearea(s)`: stores the specification; once the image has loaded, resolves it
        against the image's size and lays out. Fewer than four pieces raise a TypeError
        before anything but the stored specification changes; a piece without a value leaves
        its coordinate NaN, and the layout goes ahead with it. */
    method SetSafearea(s: string, nodeW: real, nodeH: real) returns (r: Outcome<JsError>)
      requires Valid() && nodeW > 0.0 && nodeH > 0.0
      modifies this
      ensures Valid()
      ensures settingsSafearea == s
      ensures settingsImage == old(settingsImage) && image == old(image) && loaded == old(loaded)
      ensures imageWidth == old(imageWidth) && imageHeight == old(imageHeight)
      ensures !loaded ==> r == Pass && safearea == old(safearea) && applied == old(applied)
      ensures loaded ==> match Resolve(s, imageWidth, imageHeight)
        case Failure(MissingComponent) =>
          r == Fail(TypeError) && safearea == old(safearea) && applied == old(applied)
        case Success(area) =>
          r == Pass && safearea == Resolved(area) && applied == Some(Place(nodeW, nodeH, imageWidth, imageHeight, area))
    {
      settingsSafearea := s;
      if !loaded {
        return Pass;
      }
      match Resolve(s, imageWidth, imageHeight)
      case Failure(MissingComponent) =>
        r := Fail(TypeError);
      case Success(area) =>
        safearea := Resolved(area);
        r := Layout(nodeW, nodeH);
    }

    /** `_onload`: records the image's size, marks it loaded and replays the stored
        specification, laying the image out in a container of `nodeW` by `nodeH`. */
    method OnLoad(width: real, height: real, nodeW: real, nodeH: real) returns (r: Outcome<JsError>)
      requires width > 0.0 && height > 0.0 && nodeW > 0.0 && nodeH > 0.0
      modifies this
      ensures Valid()
      ensures loaded && imageWidth == width && imageHeight == height
      ensures settingsSafearea == old(settingsSafearea)
      ensures settingsImage == old(settingsImage) && image == old(image)
      ensures match Resolve(old(settingsSafearea), width, height)
        case Failure(MissingComponent) =>
          r == Fail(TypeError) && safearea == old(safearea) && applied == old(applied)
        case Success(area) =>
          r == Pass && safearea == Resolved(area) && applied == Some(Place(nodeW, nodeH, width, height, area))
    {
      imageWidth := width;
      imageHeight := height;
      loaded := true;
      r := SetSafearea(settingsSafearea, nodeW, nodeH);
    }
  }

  // ---------------------------------------------------------------- scenarios

  /** A safe area requested before the image has loaded applies nothing until the image loads;
      then the latest request, not the configured one, is the one resolved and laid out. */
  method DeferredSafeareaScenario(spec: string, w: real, h: real, nodeW: real, nodeH: real)
      returns (before: Option<Placement>, after: Option<Placement>)
    requires w > 0.0 && h > 0.0 && nodeW > 0.0 && nodeH > 0.0
    ensures before == None
    ensures match Resolve(spec, w, h)
      case Failure(_) => after == None
      case Success(area) => after == Some(Place(nodeW, nodeH, w, h, area))
  {
    var plugin := new Plugin(Some("photo.jpg"), DefaultSpec);
    var requested := plugin.SetSafearea(spec, nodeW, nodeH);
    before := plugin.applied;
    var replayed := plugin.OnLoad(w, h, nodeW, nodeH);
    after := plugin.applied;
  }

  /** A specification with fewer than four pieces raises a TypeError when the image loads,
      and every later `layout` raises one too, since no safe area was ever resolved. */
  method MissingComponentScenario() returns (onLoad: Outcome<JsError>, relayout: Outcome<JsError>, applied: Option<Placement>)
    ensures onLoad == Fail(TypeError) && relayout == Fail(TypeError) && applied == None
  {
    var plugin := new Plugin(Some("photo.jpg"), "0,0");
    var started := plugin.Init("");
    assert CountCommas("0,0") == 1;
    onLoad := plugin.OnLoad(1000.0, 500.0, 400.0, 400.0);
    relayout := plugin.Layout(400.0, 400.0);
    applied := plugin.applied;
  }
}

