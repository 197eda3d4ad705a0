/**
 * The JavaScript string built-ins that the handlers rely on:
 * `startsWith`, `split` with a non-empty separator, and the inverse `join`.
 */
module Strings {
  import opened Wrappers

  /** `s.startsWith(prefix)` */
  predicate StartsWith(s: string, prefix: string) {
    |prefix| <= |s| && s[..|prefix|] == prefix
  }

  /** `sep` occurs in `s` at index `i` */
  predicate OccursAt(s: string, sep: string, i: nat) {
    i + |sep| <= |s| && s[i..i + |sep|] == sep
  }

  /** The first occurrence of `sep` in `s` at or after `from` (`s.indexOf(sep, from)`). */
  function IndexOfFrom(s: string, sep: string, from: nat): (r: Option<nat>)
    requires |sep| > 0 && from <= |s|
    ensures r.Some? ==> from <= r.value && OccursAt(s, sep, r.value)
    ensures r.Some? ==> forall j: nat :: from <= j < r.value ==> !OccursAt(s, sep, j)
    ensures r.None? ==> forall j: nat :: from <= j ==> !OccursAt(s, sep, j)
    decreases |s| - from
  {
    if from + |sep| > |s| then None
    else if OccursAt(s, sep, from) then Some(from)
    else IndexOfFrom(s, sep, from + 1)
  }

  function IndexOf(s: string, sep: string): (r: Option<nat>)
    requires |sep| > 0
    ensures r.Some? ==> OccursAt(s, sep, r.value)
    ensures r.Some? ==> forall j: nat :: j < r.value ==> !OccursAt(s, sep, j)
    ensures r.None? ==> forall j: nat :: !OccursAt(s, sep, j)
  {
    IndexOfFrom(s, sep, 0)
  }

  /** An occurrence of `sep` starts with the first character of `sep`. */
  lemma OccurrenceHead(s: string, sep: string, i: nat)
    requires |sep| > 0 && OccursAt(s, sep, i)
    ensures s[i] == sep[0]
  {
    assert s[i..i + |sep|][0] == s[i];
  }

  /** If the first character of `sep` appears nowhere before `i` and `sep` occurs at `i`,
      then `i` is the first occurrence. */
  lemma IndexOfIs(s: string, sep: string, i: nat)
    requires |sep| > 0 && OccursAt(s, sep, i)
    requires forall j :: 0 <= j < i ==> s[j] != sep[0]
    ensures IndexOf(s, sep) == Some(i)
  {
    var r := IndexOf(s, sep);
    if r.Some? {
      OccurrenceHead(s, sep, r.value);
    }
  }

  /** If the first character of `sep` appears nowhere in `s`, `sep` does not occur in `s`. */
  lemma IndexOfAbsent(s: string, sep: string)
    requires |sep| > 0
    requires forall j :: 0 <= j < |s| ==> s[j] != sep[0]
    ensures IndexOf(s, sep) == None
  {
    var r := IndexOf(s, sep);
    if r.Some? {
      OccurrenceHead(s, sep, r.value);
    }
  }

  /** `s.split(sep)` for a non-empty separator: the pieces between the
      non-overlapping occurrences of `sep`, scanned left to right. */
  function Split(s: string, sep: string): (parts: seq<string>)
    requires |sep| > 0
    ensures |parts| >= 1
    decreases |s|
  {
    match IndexOf(s, sep)
    case None => [s]
    case Some(i) => [s[..i]] + Split(s[i + |sep|..], sep)
  }

  /** `parts.join(sep)` */
  function Join(parts: seq<string>, sep: string): string
  {
    if |parts| == 0 then ""
    else if |parts| == 1 then parts[0]
    else parts[0] + sep + Join(parts[1..], sep)
  }

  /** Joining a piece in front of a non-empty list puts the separator between them. */
  lemma JoinCons(head: string, tail: seq<string>, sep: string)
    requires |tail| >= 1
    ensures Join([head] + tail, sep) == head + sep + Join(tail, sep)
  {
    assert ([head] + tail)[1..] == tail;
  }

  /** At the first occurrence `i` of the separator, the string is the text before it,
      the separator and the rest, and the split continues with the rest. */
  lemma SplitAt(s: string, sep: string, i: nat)
    requires |sep| > 0 && IndexOf(s, sep) == Some(i)
    ensures s == s[..i] + sep + s[i + |sep|..]
    ensures Split(s, sep) == [s[..i]] + Split(s[i + |sep|..], sep)
  {
    assert s[i..i + |sep|] == sep;
    assert s == s[..i] + s[i..i + |sep|] + s[i + |sep|..];
  }

  /** Joining the pieces of a split with the same separator gives back the original string. */
  lemma {:induction false} JoinSplit(s: string, sep: string)
    requires |sep| > 0
    ensures Join(Split(s, sep), sep) == s
    decreases |s|
  {
    var first := IndexOf(s, sep);
    if first.Some? {
      var i := first.value;
      var rest := s[i + |sep|..];
      SplitAt(s, sep, i);
      JoinSplit(rest, sep);
      JoinCons(s[..i], Split(rest, sep), sep);
    }
  }

  /** No piece of a split contains the separator. */
  lemma {:induction false} SplitAvoidsSep(s: string, sep: string, k: nat)
    requires |sep| > 0 && k < |Split(s, sep)|
    ensures IndexOf(Split(s, sep)[k], sep) == None
    decreases |s|
  {
    match IndexOf(s, sep)
    case None =>
    case Some(i) =>
      var rest := s[i + |sep|..];
      if k == 0 {
        var head := s[..i];
        var r := IndexOf(head, sep);
        if r.Some? {
          assert head[r.value..r.value + |sep|] == s[r.value..r.value + |sep|];
          assert OccursAt(s, sep, r.value);
          assert false;
        }
      } else {
        SplitAvoidsSep(rest, sep, k - 1);
      }
  }

  /** The first piece of a split is a prefix of the string that ends at the end of the
      string or right before the first occurrence of the separator. */
  lemma SplitHead(s: string, sep: string)
    requires |sep| > 0
    ensures StartsWith(s, Split(s, sep)[0])
    ensures |Split(s, sep)[0]| == |s| || OccursAt(s, sep, |Split(s, sep)[0]|)
  {
  }

  /** When the first occurrence of `sep` follows `head`, the split starts with `head`
      and goes on with the split of what follows the separator. */
  lemma SplitAfterFirst(head: string, sep: string, tail: string)
    requires |sep| > 0 && IndexOf(head + sep + tail, sep) == Some(|head|)
    ensures Split(head + sep + tail, sep) == [head] + Split(tail, sep)
  {
    var s := head + sep + tail;
    assert s[..|head|] == head;
    assert s[|head| + |sep|..] == tail;
  }

  /** For a one-character separator, "does not occur" means "is not an element". */
  lemma NoOccurrenceOfChar(s: string, c: char)
    requires IndexOf(s, [c]) == None
    ensures c !in s
  {
    if c in s {
      var j :| 0 <= j < |s| && s[j] == c;
      assert s[j..j + 1] == [c];
      assert OccursAt(s, [c], j);
    }
  }

  /** The index of the first item that starts with `prefix`, at or after `from`
      (`items.find(x => x.startsWith(prefix))`, returning the index). */
  function FindPrefixedFrom(items: seq<string>, prefix: string, from: nat): (r: Option<nat>)
    requires from <= |items|
    ensures r.Some? ==> from <= r.value < |items| && StartsWith(items[r.value], prefix)
    ensures r.Some? ==> forall j :: from <= j < r.value ==> !StartsWith(items[j], prefix)
    ensures r.None? ==> forall j :: from <= j < |items| ==> !StartsWith(items[j], prefix)
    decreases |items| - from
  {
    if from == |items| then None
    else if StartsWith(items[from], prefix) then Some(from)
    else FindPrefixedFrom(items, prefix, from + 1)
  }
}
