/**
 * A flag value that writes one string into several caller-owned string variables
 * (the Go `broadcastStringValue`, a slice of *string).
 */
module Broadcast {
  import opened Verdicts

  /** A caller-owned string variable, the target of one Go *string. Two pointers may name the same cell. */
  class Cell {
    var v: string

    constructor (initial: string)
      ensures v == initial
    {
      v := initial;
    }
  }

  /** The contents of the cells, in order (an aliased cell shows up at each of its positions). */
  ghost function ValuesOf(cells: seq<Cell>): (r: seq<string>)
    reads set c | c in cells
    ensures |r| == |cells|
    ensures forall j :: 0 <= j < |cells| ==> r[j] == cells[j].v
  {
    if |cells| == 0 then [] else [cells[0].v] + ValuesOf(cells[1..])
  }

  /** What one broadcast of `v` leaves behind: every position holds `v`. */
  function Overwrite(values: seq<string>, v: string): (r: seq<string>)
    ensures |r| == |values|
    ensures forall j :: 0 <= j < |r| ==> r[j] == v
  {
    seq(|values|, _ => v)
  }

  /** Broadcasting the same value twice leaves what broadcasting it once left. */
  lemma OverwriteIdempotent(values: seq<string>, v: string)
    ensures Overwrite(Overwrite(values, v), v) == Overwrite(values, v)
  {
  }

  /** A broadcast over a list of destinations, as handed to pflag as its Value. */
  class BroadcastValue {
    const dests: seq<Cell>

    /** The construction guarantees at least one destination. */
    ghost predicate Valid()
    {
      |dests| >= 1
    }

    /** The objects the broadcast writes. */
    ghost function Repr(): set<Cell>
    {
      set c | c in dests
    }

    /** The current contents of the destinations. */
    ghost function Values(): seq<string>
      reads Repr()
    {
      ValuesOf(dests)
    }

    /** Every destination holds the same string. */
    ghost predicate Synced()
      reads Repr()
    {
      forall j :: 0 <= j < |dests| ==> dests[j].v == dests[0].v
    }

    /** The conversion of the pointer slice into the value type; it writes nothing. */
    constructor (ptrs: seq<Cell>)
      requires |ptrs| >= 1
      ensures dests == ptrs && Valid()
    {
      dests := ptrs;
    }

    /** Writes `v` into every destination, in order; it never fails. */
    method Set(v: string) returns (err: Outcome)
      modifies Repr()
      ensures err == Ok
      ensures Values() == Overwrite(old(Values()), v)
      ensures Valid() ==> Synced() && String() == v
    {
      for i := 0 to |dests|
        invariant forall j :: 0 <= j < i ==> dests[j].v == v
      {
        dests[i].v := v;
      }
      err := Ok;
    }

    /**
     * The textual form: the first destination. When the destinations agree, it is what
     * any of them holds.
     */
    function String(): (s: string)
      requires Valid()
      reads Repr()
      ensures Synced() ==> forall j :: 0 <= j < |dests| ==> dests[j].v == s
    {
      dests[0].v
    }

    /** The kind reported to flag introspection: a plain string value. */
    function Type(): (t: string)
      ensures t == "string"
    {
      "string"
    }
  }

  /** The result of BroadcastStringValue: the value, or the panic on an empty pointer list. */
  datatype Construction = Built(sink: BroadcastValue) | Aborted(cause: Panic)

  /**
   * Builds a broadcast over `ptrs` after writing `value` into each of them. With no
   * pointer at all it panics before writing anything.
   */
  method BroadcastStringValue(value: string, ptrs: seq<Cell>) returns (r: Construction)
    modifies set c | c in ptrs
    ensures r.Aborted? <==> |ptrs| == 0
    ensures r.Aborted? ==> r.cause == NoDestinations
    ensures r.Built? ==> fresh(r.sink) && r.sink.dests == ptrs && r.sink.Valid()
    ensures r.Built? ==> r.sink.Synced() && r.sink.String() == value
    ensures r.Built? ==> r.sink.Values() == Overwrite(old(ValuesOf(ptrs)), value)
  {
    if |ptrs| < 1 {
      return Aborted(NoDestinations);
    }
    for i := 0 to |ptrs|
      invariant forall j :: 0 <= j < i ==> ptrs[j].v == value
    {
      ptrs[i].v := value;
    }
    var sink := new BroadcastValue(ptrs);
    return Built(sink);
  }
}

/** A client of the broadcast, relying on its contracts alone. */
module BroadcastClient {
  import opened Verdicts
  import opened Broadcast

  /**
   * Three destinations, the last two of which are one variable, set to "x" by
   * construction and to "y" by Set: every destination reads back the same string.
   */
  method ThreeDestinations() returns (first: string, later: string)
    ensures first == "x" && later == "y"
  {
    var a := new Cell("");
    var b := new Cell("old");
    var ptrs := [a, b, b];
    assert ptrs[0] == a && ptrs[1] == b && ptrs[2] == b;
    var r := BroadcastStringValue("x", ptrs);
    var sink := r.sink;
    assert a.v == b.v == "x";
    first := sink.String();
    var err := sink.Set("y");
    assert a.v == b.v == "y";
    later := sink.String();
  }
}
