/** What enrichment writes into the idempotency header among the parameters of an operation. */
module ParameterDocumentation {
  import opened Common
  import opened Json
  import Text

  const MAX_KEY_LENGTH := 128

  const HEADER_START :=
    "Idempotency keys " + "are replay-safe client request identifiers. They are trimmed before replay "

  const HEADER_END := "lookup and must be at most 128 visible characters without control characters" + "."

  const HEADER_DESCRIPTION := HEADER_START + HEADER_END

  /** `_is_idempotency_header_parameter`. */
  predicate IsIdempotencyHeader(p: Value) {
    p.Obj? && Find(p.entries, "name") == Some(Str("Idempotency-Key")) && Find(p.entries, "in") == Some(Str("header"))
  }

  /** The schema is bounded; a parameter without one gets one. */
  function Bounded(entries: seq<Entry<Value>>): seq<Entry<Value>> {
    var schema := Find(entries, "schema").GetOr(Obj([]));
    if schema.Obj? then Put(entries, "schema", Obj(Put(schema.entries, "maxLength", Int(MAX_KEY_LENGTH)))) else entries
  }

  /** A description that is a text, or counts as none. */
  function DescriptionText(v: Value): string {
    if Truthy(v) && v.Str? then v.s else ""
  }

  function Described(entries: seq<Entry<Value>>): seq<Entry<Value>> {
    var text := DescriptionText(Find(entries, "description").GetOr(Null));
    if Text.Contains(text, HEADER_DESCRIPTION) then entries
    else Put(entries, "description", Str(Text.Strip(text + " " + HEADER_DESCRIPTION)))
  }

  function EnsuredParameter(p: Value): Value {
    if IsIdempotencyHeader(p) then Obj(Described(Bounded(p.entries))) else p
  }

  function EnsuredParameters(parameters: seq<Value>): (r: seq<Value>)
    ensures |r| == |parameters| && forall i :: 0 <= i < |r| ==> r[i] == EnsuredParameter(parameters[i])
  {
    seq(|parameters|, i requires 0 <= i < |parameters| => EnsuredParameter(parameters[i]))
  }

  // ---------------------------------------------------------------- writing it twice

  lemma {:induction false} PutSame<V>(entries: seq<Entry<V>>, key: string, value: V)
    requires Find(entries, key) == Some(value)
    ensures Put(entries, key, value) == entries
  {
    if entries[0].key == key {
      assert entries == [entries[0]] + entries[1..] && entries[0] == Entry(key, value);
    } else {
      PutSame(entries[1..], key, value);
      assert entries == [entries[0]] + entries[1..];
    }
  }

  lemma {:induction false} StripLeftShape(s: string, tail: string)
    requires tail != [] && !Text.IsSpace(tail[0])
    ensures exists head :: Text.StripLeft(s + tail) == head + tail
  {
    if s == [] {
      assert s + tail == tail == [] + tail;
    } else if Text.IsSpace(s[0]) {
      assert (s + tail)[1..] == s[1..] + tail;
      StripLeftShape(s[1..], tail);
    }
  }

  lemma StrippedContains(text: string, tail: string)
    requires tail != [] && !Text.IsSpace(tail[0]) && !Text.IsSpace(tail[|tail| - 1])
    ensures Text.Contains(Text.Strip(text + " " + tail), tail)
  {
    StripLeftShape(text + " ", tail);
    var head :| Text.StripLeft(text + " " + tail) == head + tail;
    assert (head + tail)[|head + tail| - 1] == tail[|tail| - 1];
    assert Text.Strip(text + " " + tail) == head + tail;
    assert (head + tail)[|head|..|head| + |tail|] == tail;
    assert Text.OccursAt(head + tail, tail, |head|);
  }

  lemma HeaderDescriptionEnds()
    ensures HEADER_DESCRIPTION != [] && !Text.IsSpace(HEADER_DESCRIPTION[0])
    ensures !Text.IsSpace(HEADER_DESCRIPTION[|HEADER_DESCRIPTION| - 1])
  {
    assert HEADER_DESCRIPTION[0] == HEADER_START[0] == "Idempotency keys "[0] == 'I';
    assert HEADER_DESCRIPTION[|HEADER_DESCRIPTION| - 1] == HEADER_END[|HEADER_END| - 1] == '.';
  }

  lemma BoundedFinds(entries: seq<Entry<Value>>, k: string)
    ensures k != "schema" ==> Find(Bounded(entries), k) == Find(entries, k)
    ensures Bounded(Bounded(entries)) == Bounded(entries)
  {
    var schema := Find(entries, "schema").GetOr(Obj([]));
    if schema.Obj? {
      var bounded := Put(schema.entries, "maxLength", Int(MAX_KEY_LENGTH));
      PutThenFind(schema.entries, "maxLength", Int(MAX_KEY_LENGTH));
      PutSame(bounded, "maxLength", Int(MAX_KEY_LENGTH));
      PutThenFind(entries, "schema", Obj(bounded));
      PutSame(Bounded(entries), "schema", Obj(bounded));
    }
  }

  lemma DescribedFinds(entries: seq<Entry<Value>>, k: string)
    ensures k != "description" ==> Find(Described(entries), k) == Find(entries, k)
    ensures Described(Described(entries)) == Described(entries)
  {
    hide Text.Strip, Text.Contains, HEADER_DESCRIPTION;
    var text := DescriptionText(Find(entries, "description").GetOr(Null));
    if !Text.Contains(text, HEADER_DESCRIPTION) {
      var longer := Text.Strip(text + " " + HEADER_DESCRIPTION);
      HeaderDescriptionEnds();
      StrippedContains(text, HEADER_DESCRIPTION);
      PutThenFind(entries, "description", Str(longer));
      assert DescriptionText(Str(longer)) == longer;
    }
  }

  /** Documenting the header twice is documenting it once, and what makes it the header stays. */
  lemma ParameterIdempotent(p: Value)
    ensures IsIdempotencyHeader(EnsuredParameter(p)) == IsIdempotencyHeader(p)
    ensures EnsuredParameter(EnsuredParameter(p)) == EnsuredParameter(p)
  {
    if IsIdempotencyHeader(p) {
      var bounded := Bounded(p.entries);
      var described := Described(bounded);
      assert "name"[0] == 'n' && "in"[0] == 'i' && "schema"[0] == 's' && "description"[0] == 'd';
      BoundedFinds(p.entries, "name");
      BoundedFinds(p.entries, "in");
      DescribedFinds(bounded, "name");
      DescribedFinds(bounded, "in");
      DescribedFinds(bounded, "schema");
      BoundedAgain(bounded, described);
    }
  }

  lemma BoundedAgain(bounded: seq<Entry<Value>>, described: seq<Entry<Value>>)
    requires Bounded(bounded) == bounded && Find(described, "schema") == Find(bounded, "schema")
    ensures Bounded(described) == described
  {
    var schema := Find(bounded, "schema").GetOr(Obj([]));
    if schema.Obj? {
      PutThenFind(bounded, "schema", Obj(Put(schema.entries, "maxLength", Int(MAX_KEY_LENGTH))));
      PutSame(described, "schema", schema);
    }
  }
}
