/**
 * `assets/js/diagrams.js`: lazy rendering of Mermaid diagrams in the browser,
 * their decoration with a control bar, the colour choice for PlantUML and
 * Kroki SVG text, and the browser-side PlantUML encoder. Each diagram
 * element is an object whose fields the handlers update; the Mermaid
 * library's two render calls are reduced to their outcomes, given as
 * parameters.
 */
module Diagrams {
  import opened Common
  import Text
  import Utf8
  import Base64
  import Html

  // ---------------------------------------------------------------------------
  // Text colours (lines 36-61)
  // ---------------------------------------------------------------------------

  /** Lines 37-38: dark when the media query matches or the root element says `data-mode="dark"`. */
  predicate IsDarkMode(prefersDark: bool, dataMode: string)
  {
    prefersDark || dataMode == "dark"
  }

  const DarkText: string := "#f9fafb"
  const DarkNote: string := "#e5e7eb"
  const LightText: string := "#1f2937"
  const LightNote: string := "#374151"

  /** Lines 40-41: the fill for diagram text and for note text. */
  function Colours(prefersDark: bool, dataMode: string): (string, string)
  {
    if IsDarkMode(prefersDark, dataMode) then (DarkText, DarkNote) else (LightText, LightNote)
  }

  /** Light colours are chosen exactly when neither the media query nor the attribute asks for dark. */
  lemma ColoursByMode(prefersDark: bool, dataMode: string)
    ensures Colours(prefersDark, dataMode) == (LightText, LightNote) <==> !prefersDark && dataMode != "dark"
    ensures Colours(prefersDark, dataMode) == (DarkText, DarkNote) <==> prefersDark || dataMode == "dark"
  {
    assert DarkText[1] != LightText[1];
  }

  // ---------------------------------------------------------------------------
  // encodePlantUML (lines 457-467)
  // ---------------------------------------------------------------------------

  /** `btoa(unescape(encodeURIComponent(text)))` after a `deflate` that returns its input. */
  function EncodePlantUml(text: string): string
  {
    Base64.Encode(Base64.Standard, Utf8.Encode(text))
  }

  /** The encoding is padded standard base64 of the UTF-8 bytes, so decoding both layers gives the text back. */
  lemma EncodePlantUmlRoundTrip(text: string)
    ensures Base64.Decode(Base64.Standard, EncodePlantUml(text)).Some?
    ensures Utf8.Decode(Base64.Decode(Base64.Standard, EncodePlantUml(text)).value) == Some(text)
    ensures |EncodePlantUml(text)| % 4 == 0
  {
    Base64.DecodeEncode(Base64.Standard, Utf8.Encode(text));
    Utf8.DecodeEncode(text);
  }

  /** Different texts get different encodings. */
  lemma EncodePlantUmlInjective(t1: string, t2: string)
    ensures EncodePlantUml(t1) == EncodePlantUml(t2) <==> t1 == t2
  {
    EncodePlantUmlRoundTrip(t1);
    EncodePlantUmlRoundTrip(t2);
  }

  // ---------------------------------------------------------------------------
  // Element state and the pure steps
  // ---------------------------------------------------------------------------

  /** The buttons of the control bar (lines 274-297). */
  datatype Control = Fullscreen | Copy | Download

  /** What a render call of the Mermaid library does: it yields an SVG or throws with a message. */
  datatype Attempt = Succeeded(svg: string) | Failed(message: string)

  /**
   * What the handlers read and write of one diagram element: its classes,
   * the `data-rendered` flag, its text and markup, whether it is inside a
   * `.diagram-wrapper` and has a parent, its control bar, and whether the
   * intersection observer still watches it.
   */
  datatype ElementState = ElementState(
    isMermaid: bool, isPlantUml: bool, isKroki: bool,
    rendered: bool,
    textContent: string, innerHtml: string,
    mermaidRendered: bool,
    wrapped: bool, hasParent: bool, controls: seq<Control>,
    observed: bool)

  /** The order of line 295-297. */
  const ControlBar: seq<Control> := [Fullscreen, Copy, Download]

  /** Lines 254-304: an element already in a wrapper, or without a parent, is left alone; otherwise it is wrapped and gets the control bar. */
  function Decorate(s: ElementState): (r: ElementState)
    ensures r.wrapped == (s.wrapped || s.hasParent)
    ensures r.controls == if s.wrapped || !s.hasParent then s.controls else ControlBar
    ensures r.(wrapped := s.wrapped, controls := s.controls) == s
    ensures r.wrapped || !r.hasParent
  {
    if s.wrapped || !s.hasParent then s else s.(wrapped := true, controls := ControlBar)
  }

  /** Decoration touches only the wrapper and the control bar. */
  lemma DecorateFrame(s: ElementState)
    ensures Decorate(s).(wrapped := s.wrapped, controls := s.controls) == s
  {
  }

  /** Decorating twice is decorating once. */
  lemma DecorateIdempotent(s: ElementState)
    ensures Decorate(Decorate(s)) == Decorate(s)
  {
  }

  /** Line 140: `textContent || innerHTML`. */
  function DiagramContent(s: ElementState): string
  {
    if s.textContent != "" then s.textContent else s.innerHtml
  }

  const ErrorHead: string := "\n                        <div class=\"diagram-error\">\n                            <h4>\U{00F0}\U{0178}\U{0161}\U{00AB} Mermaid Syntax Error</h4>\n                            <p>Unable to render diagram. Please check the syntax:</p>\n                            <pre><code>"
  const ErrorMiddle: string := "</code></pre>\n                            <p><strong>Error:</strong> "
  const ErrorTail: string := "</p>\n                        </div>\n                    "

  /** Lines 187-194: the error block shows the diagram source and the first error's message, neither escaped. */
  function ErrorBlock(content: string, message: string): string
  {
    ErrorHead + content + ErrorMiddle + message + ErrorTail
  }

  /** The error block holds the source and the message verbatim. */
  lemma ErrorBlockShows(content: string, message: string)
    ensures Text.Contains(ErrorBlock(content, message), content)
    ensures Text.Contains(ErrorBlock(content, message), message)
  {
    Html.ContainsBoth(ErrorHead, content, ErrorMiddle, message, ErrorTail);
  }

  /**
   * Lines 135-196: blank content is skipped; a successful `mermaid.render`
   * replaces the markup with its SVG; otherwise `mermaid.run` is tried, and
   * when that throws too the markup becomes the error block. Returns the
   * new element and the new value of the `diagramsRendered` counter.
   */
  function RenderMermaid(s: ElementState, count: nat, primary: Attempt, fallback: Attempt): (ElementState, nat)
  {
    if Text.JsTrim(DiagramContent(s)) == "" then (s, count)
    else (TryRender(s, primary, fallback), if primary.Succeeded? || fallback.Succeeded? then count + 1 else count)
  }

  /** Lines 146-195: the element after the render call, the fallback call and, when both throw, the error block. */
  function TryRender(s: ElementState, primary: Attempt, fallback: Attempt): ElementState
  {
    match primary
    case Succeeded(svg) => Decorate(s.(innerHtml := svg, mermaidRendered := true))
    case Failed(message) =>
      match fallback
      case Succeeded(svg) => Decorate(s.(innerHtml := svg))
      case Failed(_) => s.(innerHtml := ErrorBlock(DiagramContent(s), message))
  }

  /** Whitespace-only content changes neither the element nor the counter. */
  lemma BlankContentSkipped(s: ElementState, count: nat, primary: Attempt, fallback: Attempt)
    requires Text.JsTrim(DiagramContent(s)) == ""
    ensures RenderMermaid(s, count, primary, fallback) == (s, count)
  {
  }

  /** The counter grows by one exactly when one of the two render calls succeeds on non-blank content, and then the element is decorated. */
  lemma RenderCounts(s: ElementState, count: nat, primary: Attempt, fallback: Attempt)
    ensures var (r, c) := RenderMermaid(s, count, primary, fallback);
      (c == count + 1 <==> Text.JsTrim(DiagramContent(s)) != "" && (primary.Succeeded? || fallback.Succeeded?))
      && (c == count + 1 ==> r.wrapped == (s.wrapped || s.hasParent))
      && (c == count || c == count + 1)
  {
  }

  /** When both calls fail, the markup is the error block with the source and the first error's message, and nothing is decorated. */
  lemma BothFailShowsError(s: ElementState, count: nat, m1: string, m2: string)
    requires Text.JsTrim(DiagramContent(s)) != ""
    ensures var (r, c) := RenderMermaid(s, count, Failed(m1), Failed(m2));
      c == count && r.wrapped == s.wrapped && r.controls == s.controls && r.mermaidRendered == s.mermaidRendered
      && Text.Contains(r.innerHtml, DiagramContent(s)) && Text.Contains(r.innerHtml, m1)
  {
    ErrorBlockShows(DiagramContent(s), m1);
  }

  /** A failed first call rescued by the fallback: counted once, decorated, no error block, no `mermaid-rendered` class. */
  lemma FallbackRescues(s: ElementState, count: nat, m: string, svg: string)
    requires Text.JsTrim(DiagramContent(s)) != ""
    ensures RenderMermaid(s, count, Failed(m), Succeeded(svg)) == (Decorate(s.(innerHtml := svg)), count + 1)
  {
  }

  /** The kinds of element the observer acts on (line 80). */
  predicate IsImageDiagram(s: ElementState) { s.isPlantUml || s.isKroki }

  /**
   * Lines 65-89, for one entry: a non-intersecting entry or an element
   * already flagged is ignored; otherwise the flag is set, a Mermaid element
   * is rendered, a PlantUML or Kroki element gets a colour pass scheduled,
   * and the element is no longer observed. Returns the element, the
   * counter and whether a colour pass was scheduled.
   */
  function OnIntersect(s: ElementState, count: nat, intersecting: bool, primary: Attempt, fallback: Attempt): (ElementState, nat, bool)
  {
    if !intersecting || s.rendered then (s, count, false)
    else
      var flagged := s.(rendered := true);
      if flagged.isMermaid then
        var rendered := RenderMermaid(flagged, count, primary, fallback);
        (rendered.0.(observed := false), rendered.1, false)
      else (flagged.(observed := false), count, IsImageDiagram(flagged))
  }

  /** Rendering never clears the flag. */
  lemma RenderKeepsFlag(s: ElementState, count: nat, primary: Attempt, fallback: Attempt)
    ensures RenderMermaid(s, count, primary, fallback).0.rendered == s.rendered
  {
    TryRenderKeepsFlag(s, primary, fallback);
  }

  /** None of the three outcomes of the render calls touches the flag. */
  lemma TryRenderKeepsFlag(s: ElementState, primary: Attempt, fallback: Attempt)
    ensures TryRender(s, primary, fallback).rendered == s.rendered
  {
    match primary {
      case Succeeded(svg) =>
        assert TryRender(s, primary, fallback) == Decorate(s.(innerHtml := svg, mermaidRendered := true));
      case Failed(m) =>
        match fallback {
          case Succeeded(svg) =>
            assert TryRender(s, primary, fallback) == Decorate(s.(innerHtml := svg));
          case Failed(_) =>
            assert TryRender(s, primary, fallback) == s.(innerHtml := ErrorBlock(DiagramContent(s), m));
        }
    }
  }

  /** The observer renders an element at most once: after one intersection a second does nothing, whatever the render calls would do. */
  lemma ObserverRendersOnce(s: ElementState, count: nat, p1: Attempt, f1: Attempt, p2: Attempt, f2: Attempt)
    ensures var (r, c, _) := OnIntersect(s, count, true, p1, f1);
      r.rendered && OnIntersect(r, c, true, p2, f2) == (r, c, false)
  {
    if !s.rendered && s.isMermaid {
      RenderKeepsFlag(s.(rendered := true), count, p1, f1);
    }
  }

  /** Lines 105-109: an unflagged Mermaid element is rendered without setting the flag. */
  function InitialRender(s: ElementState, count: nat, primary: Attempt, fallback: Attempt): (ElementState, nat)
  {
    if s.isMermaid && !s.rendered then RenderMermaid(s, count, primary, fallback) else (s, count)
  }

  /**
   * The initial pass leaves the flag unset, so when the element later
   * scrolls into view the observer renders it a second time and the counter
   * counts it twice.
   */
  lemma InitialPassThenObserverRendersAgain(s: ElementState, count: nat, svg1: string, svg2: string)
    requires s.isMermaid && !s.rendered && Text.JsTrim(s.textContent) != ""
    ensures var (r1, c1) := InitialRender(s, count, Succeeded(svg1), Failed(""));
      !r1.rendered && c1 == count + 1
      && OnIntersect(r1, c1, true, Succeeded(svg2), Failed("")).1 == count + 2
  {
  }

  // ---------------------------------------------------------------------------
  // The objects
  // ---------------------------------------------------------------------------

  /** One diagram element of the page. */
  class DiagramElement {
    var isMermaid: bool
    var isPlantUml: bool
    var isKroki: bool
    var rendered: bool
    var textContent: string
    var innerHtml: string
    var mermaidRendered: bool
    var wrapped: bool
    var hasParent: bool
    var controls: seq<Control>
    var observed: bool

    constructor(isMermaid: bool, isPlantUml: bool, isKroki: bool, textContent: string, innerHtml: string, hasParent: bool)
      ensures State() == ElementState(isMermaid, isPlantUml, isKroki, false, textContent, innerHtml, false, false, hasParent, [], true)
    {
      this.isMermaid := isMermaid;
      this.isPlantUml := isPlantUml;
      this.isKroki := isKroki;
      rendered := false;
      this.textContent := textContent;
      this.innerHtml := innerHtml;
      mermaidRendered := false;
      wrapped := false;
      this.hasParent := hasParent;
      controls := [];
      observed := true;
    }

    function State(): ElementState
      reads this
    {
      ElementState(isMermaid, isPlantUml, isKroki, rendered, textContent, innerHtml, mermaidRendered,
                   wrapped, hasParent, controls, observed)
    }

    /** Line 75: `setAttribute('data-rendered', 'true')`. */
    method SetRendered()
      modifies this
      ensures State() == old(State()).(rendered := true)
    {
      rendered := true;
    }

    /** Line 88: `observer.unobserve(diagram)`. */
    method Unobserve()
      modifies this
      ensures State() == old(State()).(observed := false)
    {
      observed := false;
    }

    /** `element.innerHTML = html`. */
    method SetInnerHtml(html: string)
      modifies this
      ensures State() == old(State()).(innerHtml := html)
    {
      innerHtml := html;
    }

    /** Line 161: `classList.add('mermaid-rendered')`. */
    method MarkMermaidRendered()
      modifies this
      ensures State() == old(State()).(mermaidRendered := true)
    {
      mermaidRendered := true;
    }

    /** Lines 254-304; the throttle is created afresh on each call, so its first call runs at once. */
    method AddInteractiveFeatures()
      modifies this
      ensures State() == Decorate(old(State()))
    {
      if wrapped {
        return;
      }
      if hasParent {
        wrapped := true;
        controls := [];
        controls := controls + [Fullscreen];
        controls := controls + [Copy];
        controls := controls + [Download];
      }
    }
  }

  /** The page-level state of the script: the `diagramsRendered` counter and the colour passes scheduled. */
  class DiagramPage {
    var diagramsRendered: nat
    var colourPassesScheduled: nat

    constructor()
      ensures diagramsRendered == 0 && colourPassesScheduled == 0
    {
      diagramsRendered := 0;
      colourPassesScheduled := 0;
    }

    /** Lines 135-206. */
    method RenderMermaidDiagram(element: DiagramElement, primary: Attempt, fallback: Attempt)
      modifies this, element
      ensures element.State() == RenderMermaid(old(element.State()), old(diagramsRendered), primary, fallback).0
      ensures diagramsRendered == RenderMermaid(old(element.State()), old(diagramsRendered), primary, fallback).1
      ensures colourPassesScheduled == old(colourPassesScheduled)
    {
      ghost var s := element.State();
      ghost var c0 := diagramsRendered;
      var diagramContent := if element.textContent != "" then element.textContent else element.innerHtml;
      assert diagramContent == DiagramContent(s);
      if Text.JsTrim(diagramContent) == "" {
        return;
      }
      match primary {
        case Succeeded(svg) =>
          ShowRendered(element, svg);
        case Failed(message) =>
          match fallback {
            case Succeeded(svg) =>
              ShowFallback(element, svg);
            case Failed(_) =>
              element.SetInnerHtml(ErrorBlock(diagramContent, message));
          }
      }
    }

    /** Lines 160-166: the SVG of `mermaid.render` replaces the markup; the element is counted and decorated. */
    method ShowRendered(element: DiagramElement, svg: string)
      modifies this, element
      ensures element.State() == Decorate(old(element.State()).(innerHtml := svg, mermaidRendered := true))
      ensures diagramsRendered == old(diagramsRendered) + 1
      ensures colourPassesScheduled == old(colourPassesScheduled)
    {
      element.SetInnerHtml(svg);
      element.MarkMermaidRendered();
      diagramsRendered := diagramsRendered + 1;
      element.AddInteractiveFeatures();
    }

    /** Lines 178-183: `mermaid.run` has drawn the SVG into the element; it is counted and decorated. */
    method ShowFallback(element: DiagramElement, svg: string)
      modifies this, element
      ensures element.State() == Decorate(old(element.State()).(innerHtml := svg))
      ensures diagramsRendered == old(diagramsRendered) + 1
      ensures colourPassesScheduled == old(colourPassesScheduled)
    {
      element.SetInnerHtml(svg);
      diagramsRendered := diagramsRendered + 1;
      element.AddInteractiveFeatures();
    }

    /** Lines 65-89, for one observer entry. */
    method OnIntersection(element: DiagramElement, intersecting: bool, primary: Attempt, fallback: Attempt)
      modifies this, element
      ensures element.State() == OnIntersect(old(element.State()), old(diagramsRendered), intersecting, primary, fallback).0
      ensures diagramsRendered == OnIntersect(old(element.State()), old(diagramsRendered), intersecting, primary, fallback).1
      ensures colourPassesScheduled == old(colourPassesScheduled)
            + if OnIntersect(old(element.State()), old(diagramsRendered), intersecting, primary, fallback).2 then 1 else 0
    {
      if !intersecting || element.rendered {
        return;
      }
      ghost var flagged := element.State().(rendered := true);
      ghost var count := diagramsRendered;
      element.SetRendered();
      if element.isMermaid {
        RenderMermaidDiagram(element, primary, fallback);
        assert element.State() == RenderMermaid(flagged, count, primary, fallback).0;
      } else if element.isPlantUml || element.isKroki {
        colourPassesScheduled := colourPassesScheduled + 1;
      }
      element.Unobserve();
    }

    /** Lines 104-108, for one element of the initial pass. */
    method InitialRenderOne(element: DiagramElement, primary: Attempt, fallback: Attempt)
      modifies this, element
      ensures element.State() == InitialRender(old(element.State()), 0, primary, fallback).0
      ensures diagramsRendered == old(diagramsRendered) + InitialRender(old(element.State()), 0, primary, fallback).1
      ensures colourPassesScheduled == old(colourPassesScheduled)
    {
      RenderCountShift(element.State(), diagramsRendered, primary, fallback);
      if element.isMermaid && !element.rendered {
        RenderMermaidDiagram(element, primary, fallback);
      }
    }

    /** Lines 102-109: every `.mermaid` element without the flag is rendered, in document order. */
    method InitialPass(elements: seq<DiagramElement>, primaries: seq<Attempt>, fallbacks: seq<Attempt>)
      requires |primaries| == |elements| && |fallbacks| == |elements|
      requires forall i, j :: 0 <= i < j < |elements| ==> elements[i] != elements[j]
      modifies this, set e | e in elements
      ensures forall k :: 0 <= k < |elements| ==>
        elements[k].State() == InitialRender(old(elements[k].State()), 0, primaries[k], fallbacks[k]).0
      ensures diagramsRendered == old(diagramsRendered) + CountRendered(old(InitialStates(elements)), primaries, fallbacks, |elements|)
      ensures colourPassesScheduled == old(colourPassesScheduled)
    {
      ghost var before := InitialStates(elements);
      ghost var after := InitialRenders(before, primaries, fallbacks);
      var i := 0;
      while i < |elements|
        invariant 0 <= i <= |elements|
        invariant forall k :: 0 <= k < i ==> elements[k].State() == after[k]
        invariant forall k :: i <= k < |elements| ==> elements[k].State() == before[k]
        invariant diagramsRendered == old(diagramsRendered) + CountRendered(before, primaries, fallbacks, i)
        invariant colourPassesScheduled == old(colourPassesScheduled)
      {
        label Before:
        InitialRenderOne(elements[i], primaries[i], fallbacks[i]);
        forall k | 0 <= k < |elements| && k != i
          ensures elements[k].State() == old@Before(elements[k].State())
        {
          assert elements[k] != elements[i];
        }
        i := i + 1;
      }
    }
  }

  /** The states of the elements, in order. */
  function InitialStates(elements: seq<DiagramElement>): (r: seq<ElementState>)
    reads set e | e in elements
    ensures |r| == |elements| && forall k :: 0 <= k < |elements| ==> r[k] == elements[k].State()
  {
    seq(|elements|, k requires 0 <= k < |elements| reads elements => elements[k].State())
  }

  /** What the initial pass leaves in each element. */
  ghost function InitialRenders(states: seq<ElementState>, primaries: seq<Attempt>, fallbacks: seq<Attempt>): (r: seq<ElementState>)
    requires |primaries| == |states| && |fallbacks| == |states|
    ensures |r| == |states|
    ensures forall k :: 0 <= k < |states| ==> r[k] == InitialRender(states[k], 0, primaries[k], fallbacks[k]).0
  {
    seq(|states|, k requires 0 <= k < |states| => InitialRender(states[k], 0, primaries[k], fallbacks[k]).0)
  }

  /** How many renders the initial pass counts over the first `n` elements. */
  function CountRendered(states: seq<ElementState>, primaries: seq<Attempt>, fallbacks: seq<Attempt>, n: nat): nat
    requires |primaries| == |states| && |fallbacks| == |states| && n <= |states|
  {
    if n == 0 then 0
    else CountRendered(states, primaries, fallbacks, n - 1) + InitialRender(states[n - 1], 0, primaries[n - 1], fallbacks[n - 1]).1
  }

  /** The counter after a render is the counter before plus what the render counts from zero. */
  lemma RenderCountShift(s: ElementState, count: nat, primary: Attempt, fallback: Attempt)
    ensures InitialRender(s, count, primary, fallback).1 == count + InitialRender(s, 0, primary, fallback).1
    ensures InitialRender(s, count, primary, fallback).0 == InitialRender(s, 0, primary, fallback).0
  {
  }

  /** The initial pass counts at most one render per element. */
  lemma {:induction false} CountRenderedBound(states: seq<ElementState>, primaries: seq<Attempt>, fallbacks: seq<Attempt>, n: nat)
    requires |primaries| == |states| && |fallbacks| == |states| && n <= |states|
    ensures CountRendered(states, primaries, fallbacks, n) <= n
  {
    if n > 0 {
      CountRenderedBound(states, primaries, fallbacks, n - 1);
      RenderCounts(states[n - 1], 0, primaries[n - 1], fallbacks[n - 1]);
    }
  }
}
