/** processAllFrames: process a document, then walk each of its light-DOM
    iframes in order, each inside its own try/catch. */
module FrameWalk {
  import opened Dom
  import opened Effects
  import opened FormPass

  /** `rootDoc.querySelectorAll('iframe')` */
  function Frames(doc: Root): seq<Node>
  {
    Query(IFrame, doc)
  }

  /** The effects of processAllFrames(doc). An exception from processing
      `doc` itself ends the walk before any iframe is visited. */
  function Walk(doc: Root): seq<Event>
    decreases RootSize(doc), 1
  {
    var pass := Pass(doc);
    if pass.fault.Some? then pass.events
    else pass.events + FramesWalk(doc, Frames(doc))
  }

  /** The effects of walking `frames` in order. A frame whose document is
      missing, whose access throws, or whose own walk throws contributes the
      effects made before the exception and nothing else: the exception is
      caught and the next frame is walked. */
  function FramesWalk(ghost doc: Root, frames: seq<Node>): seq<Event>
    requires forall f :: f in frames ==> f in Descendants(doc.nodes)
    decreases RootSize(doc), 0, |frames|
  {
    if frames == [] then []
    else
      var last := frames[|frames| - 1];
      FramesWalk(doc, frames[..|frames| - 1]) + FrameEffects(doc, last)
  }

  /** The effects of the body of one iframe's try block. */
  function FrameEffects(ghost doc: Root, frame: Node): seq<Event>
    requires frame in Descendants(doc.nodes)
    decreases RootSize(doc), 0, 0
  {
    match frame.frame
    case Loaded(d) =>
      FrameBelow(doc, frame);
      Walk(d)
    case NoDocument => []
    case Throws => []
  }

  /** processAllFrames(doc). The outcome is that of processing `doc` itself:
      nothing thrown while walking an iframe escapes. */
  method ProcessAllFrames(page: Page, doc: Root) returns (fault: Option<Fault>)
    modifies page
    ensures page.trace == old(page.trace) + Walk(doc)
    ensures fault == Pass(doc).fault
    decreases RootSize(doc)
  {
    fault := ProcessDocument(page, doc);
    if fault.Some? {
      return;
    }
    ghost var processed := page.trace;
    var iframes := Frames(doc);
    for k := 0 to |iframes|
      invariant page.trace == processed + FramesWalk(doc, iframes[..k])
    {
      var iframe := iframes[k];
      ghost var before := page.trace;
      match iframe.frame {
        case Loaded(frameDoc) =>
          FrameBelow(doc, iframe);
          var caught := ProcessAllFrames(page, frameDoc);
        case NoDocument =>
        case Throws =>
      }
      assert page.trace == before + FrameEffects(doc, iframe);
      assert iframes[..k + 1][..k] == iframes[..k];
      assert FramesWalk(doc, iframes[..k + 1]) == FramesWalk(doc, iframes[..k]) + FrameEffects(doc, iframe);
      AppendAssoc(processed, FramesWalk(doc, iframes[..k]), FrameEffects(doc, iframe));
    }
    assert iframes[..|iframes|] == iframes;
    AppendAssoc(old(page.trace), Pass(doc).events, FramesWalk(doc, iframes));
  }

  /** Walking a list of frames is walking its parts one after the other. */
  lemma {:induction false} FramesWalkAppend(doc: Root, a: seq<Node>, b: seq<Node>)
    requires forall f :: f in a + b ==> f in Descendants(doc.nodes)
    ensures FramesWalk(doc, a + b) == FramesWalk(doc, a) + FramesWalk(doc, b)
    decreases |b|
  {
    if b == [] {
      assert a + b == a;
    } else {
      var init := b[..|b| - 1];
      assert (a + b)[..|a + b| - 1] == a + init;
      assert (a + b)[|a + b| - 1] == b[|b| - 1];
      FramesWalkAppend(doc, a, init);
    }
  }

  /** A failing frame does not stop its siblings: when an iframe's access
      throws or yields no document, or its own pass throws, the walk of the
      siblings after it is unchanged, and the failing frame contributes only
      what its pass did before throwing. */
  lemma FailingFrameIsolated(doc: Root, before: seq<Node>, frame: Node, after: seq<Node>)
    requires forall f :: f in before + [frame] + after ==> f in Descendants(doc.nodes)
    requires frame.frame.Loaded? ==> Pass(frame.frame.doc).fault.Some?
    ensures FramesWalk(doc, before + [frame] + after) ==
      FramesWalk(doc, before)
      + (if frame.frame.Loaded? then Pass(frame.frame.doc).events else [])
      + FramesWalk(doc, after)
  {
    FramesWalkAppend(doc, before + [frame], after);
    FramesWalkAppend(doc, before, [frame]);
    assert [frame][..0] == [];
    assert FramesWalk(doc, [frame]) == FrameEffects(doc, frame);
  }

  /** The document's own pass comes first; if it throws, no iframe is walked,
      and otherwise the iframes are walked in light-DOM order after it. */
  lemma WalkOrder(doc: Root)
    ensures Pass(doc).events <= Walk(doc)
    ensures Pass(doc).fault.Some? ==> Walk(doc) == Pass(doc).events
    ensures Pass(doc).fault.None? ==>
      forall a, b :: a + b == Frames(doc) ==>
        Walk(doc) == Pass(doc).events + FramesWalk(doc, a) + FramesWalk(doc, b)
  {
    if Pass(doc).fault.None? {
      forall a, b | a + b == Frames(doc)
        ensures Walk(doc) == Pass(doc).events + FramesWalk(doc, a) + FramesWalk(doc, b)
      {
        assert forall f :: f in a + b ==> f in Descendants(doc.nodes);
        FramesWalkAppend(doc, a, b);
      }
    }
  }
}
