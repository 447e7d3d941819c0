/** The canonical page events and the budget every stream is charged against (src/core/event_stream.cpp). */
module EventStream {
  import opened Bytes
  import opened Dom

  const MAX_EVENTS: nat := 400000
  const MAX_BYTES: nat := 32 * 1024 * 1024

  datatype Event = Event(
    kind: Str, xpath: Str, tag: Str, name: Str, value: Str, depth: nat,
    attributes: seq<Attribute>, subtreeText: Str)

  // ----- what a stream costs -----

  datatype Usage = Usage(events: nat, attributes: nat, bytes: nat)

  function Plus(a: Usage, b: Usage): Usage {
    Usage(a.events + b.events, a.attributes + b.attributes, a.bytes + b.bytes)
  }

  function AttributeBytes(attributes: seq<Attribute>): nat {
    if attributes == [] then 0
    else
      var last := attributes[|attributes| - 1];
      AttributeBytes(attributes[..|attributes| - 1]) + |last.name| + |last.value|
  }

  function FieldBytes(e: Event): nat {
    |e.kind| + |e.xpath| + |e.tag| + |e.name| + |e.value| + |e.subtreeText|
  }

  function Cost(e: Event): Usage {
    Usage(1, |e.attributes|, FieldBytes(e) + AttributeBytes(e.attributes))
  }

  function Total(events: seq<Event>): Usage {
    if events == [] then Usage(0, 0, 0)
    else Plus(Total(events[..|events| - 1]), Cost(events[|events| - 1]))
  }

  predicate Fits(u: Usage) { u.events <= MAX_EVENTS && u.attributes <= MAX_EVENTS && u.bytes <= MAX_BYTES }

  lemma {:induction false} TotalAppend(a: seq<Event>, b: seq<Event>)
    ensures Total(a + b) == Plus(Total(a), Total(b))
  {
    if b == [] {
      assert a + b == a;
    } else {
      TotalAppend(a, b[..|b| - 1]);
      assert (a + b)[..|a + b| - 1] == a + b[..|b| - 1];
    }
  }

  lemma TotalOne(e: Event)
    ensures Total([e]) == Cost(e)
  {
    assert [e][..0] == [];
  }

  lemma {:induction false} AttributeBytesGrow(attributes: seq<Attribute>, k: nat)
    requires k <= |attributes|
    ensures AttributeBytes(attributes[..k]) <= AttributeBytes(attributes)
    decreases |attributes| - k
  {
    if k == |attributes| {
      assert attributes[..k] == attributes;
    } else {
      AttributeBytesGrow(attributes, k + 1);
      assert attributes[..k + 1][..k] == attributes[..k];
    }
  }

  // ----- the code -----

  class EventStreamBudget {
    var events: nat
    var attributes: nat
    var bytes: nat

    constructor ()
      ensures Used() == Usage(0, 0, 0)
    {
      events, attributes, bytes := 0, 0, 0;
    }

    function Used(): Usage
      reads this
    {
      Usage(events, attributes, bytes)
    }

    /** The `charge` closure; `MAX_BYTES - bytes` cannot wrap. */
    method Charge(size: nat) returns (ok: bool)
      requires bytes <= MAX_BYTES
      modifies this`bytes
      ensures ok <==> old(bytes) + size <= MAX_BYTES
      ensures bytes == old(bytes) + if ok then size else 0
    {
      if size > MAX_BYTES - bytes { return false; }
      bytes := bytes + size;
      return true;
    }

    method ChargeFields(e: Event) returns (ok: bool)
      requires bytes <= MAX_BYTES
      modifies this`bytes
      ensures ok <==> old(bytes) + FieldBytes(e) <= MAX_BYTES
      ensures ok ==> bytes == old(bytes) + FieldBytes(e)
    {
      ok := Charge(|e.kind|);
      if !ok { return; }
      ok := Charge(|e.xpath|);
      if !ok { return; }
      ok := Charge(|e.tag|);
      if !ok { return; }
      ok := Charge(|e.name|);
      if !ok { return; }
      ok := Charge(|e.value|);
      if !ok { return; }
      ok := Charge(|e.subtreeText|);
    }

    /** Throws (`ok` is false) exactly when the event would take some total over its bound. */
    method Consume(e: Event) returns (ok: bool)
      requires Fits(Used())
      modifies this
      ensures ok <==> Fits(Plus(old(Used()), Cost(e)))
      ensures ok ==> Used() == Plus(old(Used()), Cost(e))
    {
      events := events + 1;
      if events > MAX_EVENTS || |e.attributes| > MAX_EVENTS - attributes { return false; }
      attributes := attributes + |e.attributes|;
      ok := ChargeFields(e);
      if !ok { return; }
      ghost var base := bytes;
      for i := 0 to |e.attributes|
        invariant bytes == base + AttributeBytes(e.attributes[..i]) <= MAX_BYTES
        invariant events == old(events) + 1 && attributes == old(attributes) + |e.attributes|
      {
        AttributeBytesGrow(e.attributes, i + 1);
        assert e.attributes[..i + 1][..i] == e.attributes[..i];
        ok := Charge(|e.attributes[i].name|);
        if !ok { return; }
        ok := Charge(|e.attributes[i].value|);
        if !ok { return; }
      }
      assert e.attributes[..|e.attributes|] == e.attributes;
      return true;
    }
  }

  lemma {:induction false} TotalGrows(events: seq<Event>, k: nat, start: Usage)
    requires k <= |events| && Fits(Plus(start, Total(events)))
    ensures Fits(Plus(start, Total(events[..k])))
  {
    assert events == events[..k] + events[k..];
    TotalAppend(events[..k], events[k..]);
  }

  /** Charging a whole stream succeeds exactly when its totals fit. */
  method ConsumeAll(budget: EventStreamBudget, events: seq<Event>) returns (ok: bool)
    requires Fits(budget.Used())
    modifies budget
    ensures ok <==> Fits(Plus(old(budget.Used()), Total(events)))
    ensures ok ==> budget.Used() == Plus(old(budget.Used()), Total(events))
  {
    for i := 0 to |events|
      invariant budget.Used() == Plus(old(budget.Used()), Total(events[..i]))
      invariant Fits(budget.Used())
    {
      assert events[..i + 1][..i] == events[..i];
      ok := budget.Consume(events[i]);
      if !ok {
        if Fits(Plus(old(budget.Used()), Total(events))) {
          TotalGrows(events, i + 1, old(budget.Used()));
          assert false;
        }
        return;
      }
    }
    assert events[..|events|] == events;
    return true;
  }

  /** The reader's constructor: a second charge of the same stream. */
  method OpenReader(events: seq<Event>) returns (r: Result<seq<Event>>)
    ensures r == if Fits(Total(events)) then Success(events) else Failure(ResourceLimit)
  {
    TotalCountsEvents(events);
    if |events| > MAX_EVENTS { return Failure(ResourceLimit); }
    var budget := new EventStreamBudget();
    var ok := ConsumeAll(budget, events);
    if !ok { return Failure(ResourceLimit); }
    return Success(events);
  }

  lemma {:induction false} TotalCountsEvents(events: seq<Event>)
    ensures Total(events).events == |events|
  {
    if events != [] {
      TotalCountsEvents(events[..|events| - 1]);
    }
  }

  // ----- what is measured -----

  function AttributeText(attributes: seq<Attribute>): Str {
    if attributes == [] then [] else attributes[0].name + attributes[0].value + AttributeText(attributes[1..])
  }

  /** Every string of an event. */
  function EventText(e: Event): Str {
    e.kind + e.xpath + e.tag + e.name + e.value + AttributeText(e.attributes) + e.subtreeText
  }

  function StreamText(events: seq<Event>): Str {
    if events == [] then [] else EventText(events[0]) + StreamText(events[1..])
  }

  function StreamAttributes(events: seq<Event>): seq<Attribute> {
    if events == [] then [] else events[0].attributes + StreamAttributes(events[1..])
  }

  lemma {:induction false} AttributeLength(attributes: seq<Attribute>, last: Attribute)
    ensures |AttributeText(attributes + [last])| == |AttributeText(attributes)| + |last.name| + |last.value|
  {
    if attributes == [] {
      assert [last][1..] == [];
    } else {
      assert (attributes + [last])[1..] == attributes[1..] + [last];
      AttributeLength(attributes[1..], last);
    }
  }

  lemma {:induction false} AttributesMeasured(attributes: seq<Attribute>)
    ensures AttributeBytes(attributes) == |AttributeText(attributes)|
  {
    if attributes != [] {
      var init, last := attributes[..|attributes| - 1], attributes[|attributes| - 1];
      AttributesMeasured(init);
      AttributeLength(init, last);
      Unsnoc(attributes);
    }
  }

  lemma {:induction false} StreamLength(events: seq<Event>, last: Event)
    ensures |StreamText(events + [last])| == |StreamText(events)| + |EventText(last)|
    ensures |StreamAttributes(events + [last])| == |StreamAttributes(events)| + |last.attributes|
  {
    hide EventText;
    if events == [] {
      assert [last][1..] == [];
    } else {
      assert (events + [last])[1..] == events[1..] + [last];
      StreamLength(events[1..], last);
    }
  }

  /** A stream is charged for its events, for its start events' attributes, and for every byte of every string in it. */
  lemma {:induction false} TotalMeasures(events: seq<Event>)
    ensures Total(events) == Usage(|events|, |StreamAttributes(events)|, |StreamText(events)|)
  {
    if events != [] {
      var init, last := events[..|events| - 1], events[|events| - 1];
      TotalMeasures(init);
      StreamLength(init, last);
      AttributesMeasured(last.attributes);
      Unsnoc(events);
    }
  }
}
