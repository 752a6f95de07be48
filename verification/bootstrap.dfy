/**
 The capability dispatch of `Main.onWindowLoaded`: the WebGL detector's code
 decides whether the page builds the renderer and a 500 x 500 stepper, or
 sets one of three informational messages as the inner HTML of an element
 and stops there.
 */
module Bootstrap {
  import opened GameOfLife

  const RepoUrl := "https://github.com/Tw1ddle/game-of-life/"

  /** The fixed size of the simulation, in pixels, on both axes. */
  const Size: nat := 500

  /** Why the page does not run the simulation. */
  datatype Unsupported = NotSupported | Disabled | CouldNotDetect

  /**
   What the load handler ends up with: an informational element holding its
   inner HTML and nothing else, or a running stepper.
   */
  datatype Page = Info(reason: Unsupported, html: string) | Running(life: Stepper)

  /** The opening sentence of each message. */
  function Lead(reason: Unsupported): string {
    match reason
    case NotSupported => "Your browser does not support WebGL. "
    case Disabled => "Your browser supports WebGL, but the feature appears to be disabled. "
    case CouldNotDetect => "Could not detect WebGL support. "
  }

  /** The anchor every message ends with: a link to the project's repository. */
  function Link(): (link: string)
    ensures Occurs(link, RepoUrl, |AnchorOpen|)
  {
    var link := AnchorOpen + RepoUrl + "\" target=\"_blank\">here for project info</a> instead.";
    assert link[|AnchorOpen|..|AnchorOpen| + |RepoUrl|] == RepoUrl;
    link
  }

  const AnchorOpen := "Click <a href=\""

  /** The inner HTML of the informational element: the lead sentence, then the link. */
  function InfoHtml(reason: Unsupported): (html: string)
    ensures Contains(html, RepoUrl)
    ensures |Lead(reason)| < |html| && html[..|Lead(reason)|] == Lead(reason)
    ensures |html| == |Lead(reason)| + |Link()|
  {
    var html := Lead(reason) + Link();
    var at := |Lead(reason)| + |AnchorOpen|;
    assert html[at..at + |RepoUrl|] == Link()[|AnchorOpen|..|AnchorOpen| + |RepoUrl|];
    assert Occurs(html, RepoUrl, at);
    html
  }

  /** `part` appears in `s` starting at index `i`. */
  ghost predicate Occurs(s: string, part: string, i: int) {
    0 <= i <= |s| - |part| && s[i..i + |part|] == part
  }

  ghost predicate Contains(s: string, part: string) {
    exists i :: Occurs(s, part, i)
  }

  /**
   The `switch` on a nonzero detector code: 2 means WebGL is absent, 1 that
   it is present but disabled, and every other code takes the default branch.
   */
  function Reason(code: int): (reason: Unsupported)
    requires code != 0
    ensures reason == NotSupported <==> code == 2
    ensures reason == Disabled <==> code == 1
    ensures reason == CouldNotDetect <==> code != 1 && code != 2
  {
    match code
    case 2 => NotSupported
    case 1 => Disabled
    case _ => CouldNotDetect
  }

  /**
   Code 0 means WebGL is available: only then are the renderer and a 500 x
   500 stepper built. Any other code sets its message and returns first.
   */
  function OnWindowLoaded(code: int): (page: Page)
    ensures page.Running? <==> code == 0
    ensures page.Running? ==>
      && page.life == New(Size, Size)
      && page.life.Valid()
      && page.life.current == Ping
      && page.life.ping.width == Size && page.life.ping.height == Size
      && page.life.pong.width == Size && page.life.pong.height == Size
      && page.life.draws == []
    ensures page.Info? ==>
      && page.reason == Reason(code)
      && page.html == InfoHtml(page.reason)
      && Contains(page.html, RepoUrl)
  {
    if code != 0 then
      var reason := Reason(code);
      Info(reason, InfoHtml(reason))
    else
      Running(New(Size, Size))
  }

  /** Different reasons give the informational element different inner HTML. */
  lemma MessagesDiffer(a: Unsupported, b: Unsupported)
    requires a != b
    ensures InfoHtml(a) != InfoHtml(b)
  {
    // The three lead sentences have different lengths, and the link after them is the same.
    assert |Lead(a)| != |Lead(b)|;
  }

  /**
   The codes split into exactly four outcomes: a code leads to the same page
   as another code exactly when both are 0, both are 1, both are 2, or
   neither is any of 0, 1, 2.
   */
  lemma DispatchPartition(c: int, d: int)
    ensures OnWindowLoaded(c) == OnWindowLoaded(d)
        <==> c == d || (c !in {0, 1, 2} && d !in {0, 1, 2})
  {
    if c != 0 && d != 0 && Reason(c) != Reason(d) {
      MessagesDiffer(Reason(c), Reason(d));
    }
  }
}
