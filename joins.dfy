/** Go's strings.Join, which builds every error message of the validators. */
module Joins {

  /** The parts in order with `sep` between neighbours; no separator before the first or after the last. */
  function Join(parts: seq<string>, sep: string): string
  {
    if |parts| == 0 then ""
    else if |parts| == 1 then parts[0]
    else parts[0] + sep + Join(parts[1..], sep)
  }

  /** Every part with `prefix` put in front of it. */
  function Prefixed(prefix: string, parts: seq<string>): (r: seq<string>)
    ensures |r| == |parts|
    ensures forall k :: 0 <= k < |parts| ==> r[k] == prefix + parts[k]
  {
    if |parts| == 0 then [] else [prefix + parts[0]] + Prefixed(prefix, parts[1..])
  }

  /** Joining two non-empty lists is joining each and putting one separator between them. */
  lemma {:induction false} JoinAppend(a: seq<string>, b: seq<string>, sep: string)
    requires |a| > 0 && |b| > 0
    ensures Join(a + b, sep) == Join(a, sep) + sep + Join(b, sep)
  {
    if |a| == 1 {
      assert (a + b)[1..] == b;
    } else {
      assert (a + b)[1..] == a[1..] + b;
      JoinAppend(a[1..], b, sep);
    }
  }

  /**
   * Every part shows up in the joined string, in its place: the parts before it joined,
   * a separator, the part itself, a separator, and the parts after it joined.
   */
  lemma {:induction false} JoinSplit(parts: seq<string>, sep: string, k: nat)
    requires k < |parts|
    ensures Join(parts, sep) ==
      Join(parts[..k], sep) + (if 0 < k then sep else "") + parts[k] +
      (if k + 1 < |parts| then sep else "") + Join(parts[k + 1..], sep)
  {
    var before, after := parts[..k], parts[k + 1..];
    var middle := Join(parts[k..], sep);
    assert parts[k..][1..] == after;
    assert middle == parts[k] + (if k + 1 < |parts| then sep else "") + Join(after, sep);
    if 0 < k {
      assert parts == before + parts[k..];
      JoinAppend(before, parts[k..], sep);
    } else {
      assert parts == parts[k..];
    }
  }

  /** A part shows up verbatim inside the joined string. */
  lemma JoinMentions(parts: seq<string>, sep: string, k: nat) returns (pre: string, post: string)
    requires k < |parts|
    ensures Join(parts, sep) == pre + parts[k] + post
    ensures k == 0 ==> pre == ""
    ensures 0 < k ==> |pre| >= |sep| && pre[|pre| - |sep|..] == sep
  {
    JoinSplit(parts, sep, k);
    pre := Join(parts[..k], sep) + (if 0 < k then sep else "");
    post := (if k + 1 < |parts| then sep else "") + Join(parts[k + 1..], sep);
    if k == 0 {
      assert Join(parts[..k], sep) == "";
    }
  }

  /**
   * Writing a prefix once in front and again after every separator is the same as
   * prefixing every part and joining with the bare separator.
   */
  lemma {:induction false} PrefixedJoin(prefix: string, parts: seq<string>, sep: string)
    requires |parts| > 0
    ensures prefix + Join(parts, sep + prefix) == Join(Prefixed(prefix, parts), sep)
  {
    if |parts| > 1 {
      var rest := parts[1..];
      PrefixedJoin(prefix, rest, sep);
      assert Prefixed(prefix, parts)[1..] == Prefixed(prefix, rest);
      calc {
        prefix + Join(parts, sep + prefix);
        prefix + (parts[0] + (sep + prefix) + Join(rest, sep + prefix));
        (prefix + parts[0]) + sep + (prefix + Join(rest, sep + prefix));
        (prefix + parts[0]) + sep + Join(Prefixed(prefix, rest), sep);
      }
    }
  }
}
