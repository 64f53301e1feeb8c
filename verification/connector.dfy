/**
 * The connector-drag controller of the canvas
 * (src/components/app/tree/skill-tree-canvas.tsx, lines 312-425, 501-505
 * and 540-550): the refs it mutates, the pending connection it draws, the
 * window listeners of a drag and the frame that coalesces pointer moves.
 *
 * Browser objects are abstract here: `listening` says whether the drag's
 * `pointermove`/`pointerup` listeners are registered on the window, `frame`
 * whether an animation frame is scheduled (and for which pointer position),
 * and the container's bounding box is passed in, `None` when the container
 * is not mounted. Each method is one callback of the source, run to the end.
 */
module Connector {
  import opened SkillTypes
  import opened Positioned
  import opened Projection
  import opened SkillStore

  /** `pendingConnection`: the dashed line from the source to the cursor or the hovered anchor. */
  datatype Pending = Pending(sourceId: string, point: Point, hoverTargetId: Option<string>)

  /**
   * What the listeners of one drag captured when it started: the source id,
   * the drawn nodes and the selection `resolveConnectorPoint` used.
   */
  datatype Gesture = Gesture(sourceId: string, nodes: seq<PositionedSkill>, selected: Option<string>)

  /** `initialPoint`: the source's anchor, or the clamped pointer when the source is not drawn. */
  function InitialPoint(nodes: seq<PositionedSkill>, skillId: string, client: Point, box: Rect, selected: Option<string>): Point
  {
    match NodeLookup(nodes, skillId)
    case Some(source) => ConnectorPoint(source, selected)
    case None => ToPoint(client, Some(box))
  }

  /** A point inside the unit square: a position relative to the container's size. */
  predicate Fraction(p: Point)
  {
    0.0 <= p.x <= 1.0 && 0.0 <= p.y <= 1.0
  }

  /** The interaction state of one mounted canvas. */
  class Canvas {
    /** `handleMove` and `handleUp` are registered on the window. */
    var listening: bool
    /** `pointerCleanupRef.current` is set. */
    var cleanupSet: bool
    /** The closure the registered listeners (and their frame) share. */
    var gesture: Option<Gesture>
    /** `pointerRafRef.current`: a scheduled frame, with the cursor position it will test. */
    var frame: Option<Point>
    /** `activeTargetRef.current`. */
    var activeTarget: Option<string>
    /** `pendingConnection`. */
    var pending: Option<Pending>
    /** `skillPositions`: the normalised positions of dragged nodes. */
    var positions: map<string, Point>

    /**
     * The controller's invariant: a cleanup is set exactly while listeners
     * are registered, a frame is only scheduled while they are, and neither
     * the active target nor the hovered target is ever the drag's source;
     * every stored position is a fraction of the container.
     */
    ghost predicate Valid()
      reads this
    {
      && cleanupSet == listening
      && (listening ==> gesture.Some?)
      && (frame.Some? ==> listening)
      && (activeTarget.Some? ==> gesture.Some? && activeTarget.value != gesture.value.sourceId)
      && (pending.Some? && pending.value.hoverTargetId.Some? ==>
            pending.value.hoverTargetId.value != pending.value.sourceId)
      && (forall id :: id in positions ==> Fraction(positions[id]))
    }

    /** A freshly mounted canvas: no drag, no frame, nothing pending, no dragged positions. */
    constructor ()
      ensures Valid()
      ensures !listening && frame.None? && activeTarget.None? && pending.None? && positions == map[]
    {
      listening, cleanupSet := false, false;
      gesture, frame := None, None;
      activeTarget, pending := None, None;
      positions := map[];
    }

    /**
     * The function `pointerCleanupRef` holds: it removes both listeners,
     * cancels the scheduled frame and clears the active target.
     */
    method RunCleanup()
      modifies this
      ensures !listening && frame.None? && activeTarget.None?
      ensures cleanupSet == old(cleanupSet) && gesture == old(gesture)
      ensures pending == old(pending) && positions == old(positions)
    {
      listening := false;
      frame := None;
      activeTarget := None;
    }

    /**
     * `stopConnection` (also run when the canvas unmounts): afterwards no
     * listener is registered, no frame is scheduled and nothing is pending.
     */
    method StopConnection()
      requires Valid()
      modifies this
      ensures Valid()
      ensures !listening && !cleanupSet && frame.None? && activeTarget.None? && pending.None?
      ensures gesture == old(gesture) && positions == old(positions)
    {
      if cleanupSet {
        RunCleanup();
        cleanupSet := false;
      }
      // A scheduled frame implies a cleanup (Valid), which has cancelled it.
      assert frame.None?;
      activeTarget := None;
      pending := None;
    }

    /**
     * `startConnection(skillId, ...)`: nothing happens on a read-only canvas
     * or without a container. Otherwise the previous drag's listeners and
     * frame are released, the pending line starts at the source's anchor,
     * and new listeners capture this drag.
     */
    method StartConnection(skillId: string, client: Point, readonly: bool, container: Option<Rect>,
                           nodes: seq<PositionedSkill>, selected: Option<string>)
      requires Valid()
      modifies this
      ensures Valid()
      ensures readonly || container.None? ==>
        && listening == old(listening) && cleanupSet == old(cleanupSet) && gesture == old(gesture)
        && frame == old(frame) && activeTarget == old(activeTarget) && pending == old(pending)
      ensures !readonly && container.Some? ==>
        && listening && cleanupSet && frame.None? && activeTarget.None?
        && gesture == Some(Gesture(skillId, nodes, selected))
        && pending == Some(Pending(skillId, InitialPoint(nodes, skillId, client, container.value, selected), None))
      ensures positions == old(positions)
    {
      if readonly || container.None? {
        return;
      }
      if cleanupSet {
        RunCleanup();
        cleanupSet := false;
      }
      activeTarget := None;
      var initialPoint := InitialPoint(nodes, skillId, client, container.value, selected);
      pending := Some(Pending(skillId, initialPoint, None));
      gesture := Some(Gesture(skillId, nodes, selected));
      listening := true;
      cleanupSet := true;
    }

    /**
     * `handleMove` → `updatePointer`: without a container nothing happens;
     * otherwise the scheduled frame, if any, is replaced by one for the
     * clamped pointer position.
     */
    method PointerMove(client: Point, container: Option<Rect>)
      requires Valid() && listening
      modifies this
      ensures Valid()
      ensures frame == if container.Some? then Some(ToPoint(client, container)) else old(frame)
      ensures listening == old(listening) && cleanupSet == old(cleanupSet) && gesture == old(gesture)
      ensures activeTarget == old(activeTarget) && pending == old(pending) && positions == old(positions)
    {
      if container.None? {
        return;
      }
      var nextPoint := ToPoint(client, container);
      if frame.Some? {
        frame := None;
      }
      frame := Some(nextPoint);
    }

    /**
     * The scheduled frame runs: the first node other than the source whose
     * anchor is within the radius becomes the active target, and the
     * pending line of this drag snaps to its anchor (or follows the cursor).
     */
    method RunFrame()
      requires Valid() && frame.Some?
      modifies this
      ensures Valid()
      ensures frame.None?
      ensures var g := old(gesture).value;
        var hit := FindTarget(g.nodes, g.sourceId, old(frame).value, g.selected);
        && activeTarget == (if hit.Some? then Some(hit.value.skill.id) else None)
        && pending == if old(pending).Some? && old(pending).value.sourceId == g.sourceId then
             Some(Pending(g.sourceId, if hit.Some? then ConnectorPoint(hit.value, g.selected) else old(frame).value,
                          activeTarget))
           else old(pending)
      ensures listening == old(listening) && cleanupSet == old(cleanupSet) && gesture == old(gesture)
      ensures positions == old(positions)
    {
      var g := gesture.value;
      var nextPoint := frame.value;
      var nearbyTarget := FindTarget(g.nodes, g.sourceId, nextPoint, g.selected);
      var hoveredId := if nearbyTarget.Some? then Some(nearbyTarget.value.skill.id) else None;
      var hoveredAnchor := if nearbyTarget.Some? then Some(ConnectorPoint(nearbyTarget.value, g.selected)) else None;
      activeTarget := hoveredId;
      if pending.Some? && pending.value.sourceId == g.sourceId {
        pending := Some(Pending(g.sourceId, if hoveredAnchor.Some? then hoveredAnchor.value else nextPoint, hoveredId));
      }
      frame := None;
    }

    /**
     * `handleUp`: the listeners are removed and the frame cancelled; a
     * non-empty active target is connected to the source in the store
     * (it can never be the source itself); the pending line and the active
     * target are cleared.
     */
    method PointerUp(store: Store)
      requires Valid() && listening
      modifies this, store
      ensures Valid()
      ensures !listening && !cleanupSet && frame.None? && activeTarget.None? && pending.None?
      ensures var source := old(gesture).value.sourceId;
        var target := old(activeTarget);
        if target.Some? && target.value != "" then store.skills == Connect(old(store.skills), source, target.value)
        else store.skills == old(store.skills)
      ensures store.selected == old(store.selected)
      ensures gesture == old(gesture) && positions == old(positions)
    {
      listening := false;
      cleanupSet := false;
      if frame.Some? {
        frame := None;
      }
      var target := activeTarget;
      var skillId := gesture.value.sourceId;
      if target.Some? && target.value != "" && target.value != skillId {
        var _ := store.ConnectSkills(skillId, target.value);
      }
      pending := None;
      activeTarget := None;
    }

    /** `handleNodeClick`: selects the node, unless a connection is pending or the canvas is read-only. */
    method NodeClick(id: string, readonly: bool, store: Store)
      modifies store
      ensures store.skills == old(store.skills)
      ensures store.selected == if pending.Some? || readonly then old(store.selected) else Some(id)
    {
      if pending.Some? {
        return;
      }
      if readonly {
        return;
      }
      store.SelectSkill(Some(id));
    }

    /**
     * `onDragEnd` of a node: on an editable canvas with a container, the
     * drop point relative to the container, as a clamped fraction of its
     * size, is stored as the node's position.
     */
    method NodeDragEnd(id: string, drop: Point, readonly: bool, container: Option<Rect>)
      requires Valid()
      requires container.Some? ==> container.value.width > 0.0 && container.value.height > 0.0
      modifies this
      ensures Valid()
      ensures readonly || container.None? ==> positions == old(positions)
      ensures !readonly && container.Some? ==>
        var box := container.value;
        positions == old(positions)[id := Point(Normalized(drop.x - box.left, box.width),
                                                Normalized(drop.y - box.top, box.height))]
      ensures listening == old(listening) && cleanupSet == old(cleanupSet) && gesture == old(gesture)
      ensures frame == old(frame) && activeTarget == old(activeTarget) && pending == old(pending)
    {
      if readonly || container.None? {
        return;
      }
      var box := container.value;
      var centerX := drop.x - box.left;
      var centerY := drop.y - box.top;
      var normalizedX := Normalized(centerX, box.width);
      var normalizedY := Normalized(centerY, box.height);
      positions := positions[id := Point(normalizedX, normalizedY)];
    }
  }
}
