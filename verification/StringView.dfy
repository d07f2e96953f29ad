// Splitting the string views of src/string.c: finding a delimiter, chopping parts off the
// front, and how parts and delimiters make up the view again.

module StringViews {

  /** A view is bytes, or invalid: no data but a size. */
  datatype View = Invalid | View(bytes: string)

  const EMPTY := View("")

  predicate OccursAt(text: string, needle: string, i: nat) {
    i + |needle| <= |text| && text[i..i + |needle|] == needle
  }

  ghost predicate Occurs(text: string, needle: string) {
    exists i: nat :: OccursAt(text, needle, i)
  }

  ghost predicate FirstAt(text: string, needle: string, i: nat) {
    OccursAt(text, needle, i) && forall j: nat :: j < i ==> !OccursAt(text, needle, j)
  }

  /** lor_sv_find: the first occurrence, and an empty needle is found at once. */
  method Find(view: View, needle: View) returns (found: bool, index: nat)
    ensures found <==> view.View? && needle.View? && Occurs(view.bytes, needle.bytes)
    ensures found ==> FirstAt(view.bytes, needle.bytes, index)
  {
    if view.Invalid? || needle.Invalid? || |needle.bytes| > |view.bytes| { return false, 0; }
    if |needle.bytes| == 0 {
      assert OccursAt(view.bytes, needle.bytes, 0);
      return true, 0;
    }
    var limit := |view.bytes| - |needle.bytes|;
    index := 0;
    while index <= limit
      invariant forall j: nat :: j < index ==> !OccursAt(view.bytes, needle.bytes, j)
    {
      if view.bytes[index] == needle.bytes[0] && view.bytes[index..index + |needle.bytes|] == needle.bytes {
        assert OccursAt(view.bytes, needle.bytes, index);
        return true, index;
      }
      index := index + 1;
    }
    return false, 0;
  }

  /** lor_sv_split: what lies before and after the first delimiter. Without one, and for an
      empty delimiter, everything lies before it. */
  method Split(view: View, delimiter: View) returns (found: bool, before: View, after: View)
    ensures found <==> view.View? && delimiter.View? && delimiter.bytes != "" && Occurs(view.bytes, delimiter.bytes)
    ensures found ==> before.View? && after.View? && FirstAt(view.bytes, delimiter.bytes, |before.bytes|)
    ensures found ==> before.bytes + delimiter.bytes + after.bytes == view.bytes
    ensures !found ==> before == view && after == EMPTY
  {
    var index := 0;
    found := delimiter.View? && |delimiter.bytes| != 0;
    if found { found, index := Find(view, delimiter); }
    if !found { return false, view, EMPTY; }
    before := View(view.bytes[..index]);
    after := View(view.bytes[index + |delimiter.bytes|..]);
  }

  /** The parts that repeated chopping gives. */
  ghost function Parts(text: string, delimiter: string): (ps: seq<string>)
    requires delimiter != ""
    ensures ps != []
    decreases |text|
  {
    if exists i: nat :: FirstAt(text, delimiter, i) then
      var i: nat :| FirstAt(text, delimiter, i);
      [text[..i]] + Parts(text[i + |delimiter|..], delimiter)
    else [text]
  }

  /** lor_sv_chop: takes the part before the first delimiter off the view; without a
      delimiter the part is all of it and the view becomes empty. */
  method Chop(view: View, delimiter: View) returns (found: bool, part: View, rest: View)
    ensures view.Invalid? || delimiter.Invalid? || delimiter.bytes == "" ==> !found && part == EMPTY && rest == view
    ensures view.View? && delimiter.View? && delimiter.bytes != "" ==>
              && part.View? && rest.View?
              && Parts(view.bytes, delimiter.bytes) == [part.bytes]
                  + (if found then Parts(rest.bytes, delimiter.bytes) else [])
              && (found ==> |rest.bytes| < |view.bytes|) && (!found ==> rest == EMPTY)
  {
    if view.Invalid? || delimiter.Invalid? || |delimiter.bytes| == 0 { return false, EMPTY, view; }
    var after;
    found, part, after := Split(view, delimiter);
    rest := if found then after else EMPTY;
    if found {
      PartsAtFirst(view.bytes, delimiter.bytes, |part.bytes|);
      assert view.bytes[..|part.bytes|] == part.bytes && view.bytes[|part.bytes| + |delimiter.bytes|..] == after.bytes;
    } else {
      FirstExists(view.bytes, delimiter.bytes);
    }
  }

  lemma {:induction false} FirstExists(text: string, needle: string)
    ensures Occurs(text, needle) <==> exists i: nat :: FirstAt(text, needle, i)
  {
    if Occurs(text, needle) {
      var i: nat :| OccursAt(text, needle, i);
      LowestOccurrence(text, needle, i);
    }
  }

  lemma {:induction false} LowestOccurrence(text: string, needle: string, i: nat)
    requires OccursAt(text, needle, i)
    ensures exists j: nat :: FirstAt(text, needle, j)
    decreases i
  {
    if j: nat :| j < i && OccursAt(text, needle, j) {
      LowestOccurrence(text, needle, j);
    } else {
      assert FirstAt(text, needle, i);
    }
  }

  lemma PartsAtFirst(text: string, delimiter: string, i: nat)
    requires delimiter != "" && FirstAt(text, delimiter, i)
    ensures Parts(text, delimiter) == [text[..i]] + Parts(text[i + |delimiter|..], delimiter)
  {
  }

  /** Chopping until nothing is found ends and gives all parts. */
  method ChopAll(view: View, delimiter: View) returns (parts: seq<string>)
    requires view.View? && delimiter.View? && delimiter.bytes != ""
    ensures parts == Parts(view.bytes, delimiter.bytes)
  {
    parts := [];
    var rest, found := view, true;
    while found
      invariant rest.View?
      invariant if found then Parts(view.bytes, delimiter.bytes) == parts + Parts(rest.bytes, delimiter.bytes)
                else Parts(view.bytes, delimiter.bytes) == parts
      decreases found, |rest.bytes|
    {
      var part;
      found, part, rest := Chop(rest, delimiter);
      parts := parts + [part.bytes];
    }
  }

  // ---------- The round trips ----------

  function Joined(parts: seq<string>, delimiter: string): string {
    if parts == [] then "" else if |parts| == 1 then parts[0] else parts[0] + delimiter + Joined(parts[1..], delimiter)
  }

  /** The parts, joined by the delimiter, give back the view, and no part contains it. */
  lemma {:induction false} PartsJoinBack(text: string, delimiter: string)
    requires delimiter != ""
    ensures Joined(Parts(text, delimiter), delimiter) == text
    ensures forall k :: 0 <= k < |Parts(text, delimiter)| ==> !Occurs(Parts(text, delimiter)[k], delimiter)
    decreases |text|
  {
    FirstExists(text, delimiter);
    if i: nat :| FirstAt(text, delimiter, i) {
      var rest := text[i + |delimiter|..];
      PartsAtFirst(text, delimiter, i);
      PartsJoinBack(rest, delimiter);
      var ps := Parts(text, delimiter);
      assert ps[1..] == Parts(rest, delimiter);
      assert text == text[..i] + delimiter + rest;
      NotBeforeFirst(text, delimiter, i);
    } else {
      assert Parts(text, delimiter) == [text];
    }
  }

  lemma NotBeforeFirst(text: string, delimiter: string, i: nat)
    requires delimiter != "" && FirstAt(text, delimiter, i)
    ensures !Occurs(text[..i], delimiter)
  {
    if j: nat :| OccursAt(text[..i], delimiter, j) { PrefixOccurs(text, delimiter, i, j); }
  }

  lemma PrefixOccurs(text: string, delimiter: string, i: nat, j: nat)
    requires i <= |text| && OccursAt(text[..i], delimiter, j)
    ensures OccursAt(text, delimiter, j) && j + |delimiter| <= i
  {
  }

  /** Chopping a join gives the same parts if and only if no delimiter begins inside a part:
      the last part has none, and in every other part followed by the delimiter the first
      one is that delimiter. */
  ghost predicate Chopable(parts: seq<string>, delimiter: string)
    requires parts != []
  {
    && (forall k :: 0 <= k < |parts| - 1 ==> FirstAt(parts[k] + delimiter, delimiter, |parts[k]|))
    && !Occurs(parts[|parts| - 1], delimiter)
  }

  /** Whether a delimiter begins inside a part is decided by the part and the delimiter. */
  lemma {:induction false} FirstIsLocal(part: string, delimiter: string, rest: string)
    requires delimiter != ""
    ensures FirstAt(part + delimiter, delimiter, |part|) <==> FirstAt(part + delimiter + rest, delimiter, |part|)
  {
    var near, all := part + delimiter, part + delimiter + rest;
    forall j: nat | j <= |part| ensures OccursAt(near, delimiter, j) <==> OccursAt(all, delimiter, j) {
      assert near[j..j + |delimiter|] == all[j..j + |delimiter|];
    }
    assert near[|part|..|part| + |delimiter|] == delimiter;
  }

  lemma ChopableFirst(parts: seq<string>, delimiter: string)
    requires |parts| > 1
    ensures Chopable(parts, delimiter) <==>
              FirstAt(parts[0] + delimiter, delimiter, |parts[0]|) && Chopable(parts[1..], delimiter)
  {
    assert forall k :: 0 < k < |parts| ==> parts[k] == parts[1..][k - 1];
  }

  /** The first part comes off whole exactly if the first delimiter stands behind it. */
  lemma {:induction false} FirstPartChops(parts: seq<string>, delimiter: string)
    requires |parts| > 1 && delimiter != ""
    ensures var text, rest := Joined(parts, delimiter), Joined(parts[1..], delimiter);
            if FirstAt(text, delimiter, |parts[0]|) then Parts(text, delimiter) == [parts[0]] + Parts(rest, delimiter)
            else Parts(text, delimiter)[0] != parts[0]
  {
    var text, rest := Joined(parts, delimiter), Joined(parts[1..], delimiter);
    JoinHasDelimiter(parts, delimiter);
    FirstExists(text, delimiter);
    var i: nat :| FirstAt(text, delimiter, i);
    PartsAtFirst(text, delimiter, i);
    if i == |parts[0]| {
      assert text[..i] == parts[0] && text[i + |delimiter|..] == rest;
    } else {
      FirstElsewhere(text, delimiter, i, |parts[0]|);
      assert |Parts(text, delimiter)[0]| == i;
    }
  }

  lemma {:induction false} JoinChopsExactly(parts: seq<string>, delimiter: string)
    requires parts != [] && delimiter != ""
    ensures Parts(Joined(parts, delimiter), delimiter) == parts <==> Chopable(parts, delimiter)
    decreases |parts|
  {
    if |parts| == 1 {
      FirstExists(parts[0], delimiter);
      PartsJoinBack(parts[0], delimiter);
    } else {
      var rest := Joined(parts[1..], delimiter);
      FirstIsLocal(parts[0], delimiter, rest);
      JoinChopsExactly(parts[1..], delimiter);
      ChopableFirst(parts, delimiter);
      FirstPartChops(parts, delimiter);
      assert parts == [parts[0]] + parts[1..];
    }
  }

  lemma JoinHasDelimiter(parts: seq<string>, delimiter: string)
    requires |parts| > 1
    ensures OccursAt(Joined(parts, delimiter), delimiter, |parts[0]|)
  {
  }

  lemma FirstElsewhere(text: string, delimiter: string, i: nat, j: nat)
    requires FirstAt(text, delimiter, i) && i != j
    ensures !FirstAt(text, delimiter, j)
  {
  }

  /** With a delimiter of one byte it is enough that no part contains it. */
  lemma {:induction false} OneByteJoinChops(parts: seq<string>, delimiter: string)
    requires parts != [] && |delimiter| == 1 && forall k :: 0 <= k < |parts| ==> !Occurs(parts[k], delimiter)
    ensures Parts(Joined(parts, delimiter), delimiter) == parts
  {
    forall k | 0 <= k < |parts| - 1 ensures FirstAt(parts[k] + delimiter, delimiter, |parts[k]|) {
      var text := parts[k] + delimiter;
      assert text[|parts[k]|..|parts[k]| + 1] == delimiter;
      forall j: nat | j < |parts[k]| ensures !OccursAt(text, delimiter, j) {
        assert text[j..j + 1] == parts[k][j..j + 1];
        assert !OccursAt(parts[k], delimiter, j);
      }
    }
    JoinChopsExactly(parts, delimiter);
  }

  /** With a longer one it is not. */
  lemma LongDelimiterDiffers(parts: seq<string>, delimiter: string)
    requires parts == ["a", "b"] && delimiter == "aa"
    ensures !Occurs("a", delimiter) && !Occurs("b", delimiter)
    ensures Parts(Joined(parts, delimiter), delimiter) != parts
  {
    assert OccursAt("a" + "aa", delimiter, 0);
    JoinChopsExactly(parts, delimiter);
  }
}
