/**
 * The text rules of the edits filter: trimming an item's title, the match
 * prefix of a status name, whether a titled item is displayed under a
 * filter, and the set of three-character title prefixes in the edits list.
 */
module Titles {
  import opened Wrappers

  /** The statuses the panel can offer a button for, in the order they are reconciled. */
  const Statuses: seq<string> := ["Accepted", "Pending", "Not Accepted"]

  /**
   * The characters `String.prototype.trim` strips: the white-space
   * characters (tab, vertical tab, form feed, the byte-order mark and the
   * Unicode space separators) and the line terminators.
   */
  predicate IsSpace(c: char)
  {
    c == '\t' || c == '\U{000B}' || c == '\U{000C}' || c == '\U{FEFF}'
    || c == ' ' || c == '\U{00A0}' || c == '\U{1680}' || ('\U{2000}' <= c <= '\U{200A}')
    || c == '\U{202F}' || c == '\U{205F}' || c == '\U{3000}'
    || c == '\n' || c == '\r' || c == '\U{2028}' || c == '\U{2029}'
  }

  predicate StartsWith(s: string, prefix: string)
  {
    |prefix| <= |s| && s[..|prefix|] == prefix
  }

  function Min(a: nat, b: nat): nat
  {
    if a < b then a else b
  }

  /** The index of the first non-whitespace character of `s` at or after `i`. */
  function TrimStartIndex(s: string, i: nat): (a: nat)
    requires i <= |s|
    ensures i <= a <= |s|
    ensures forall k :: i <= k < a ==> IsSpace(s[k])
    ensures a == |s| || !IsSpace(s[a])
    decreases |s| - i
  {
    if i < |s| && IsSpace(s[i]) then TrimStartIndex(s, i + 1) else i
  }

  /** The end of `s[a..j]` once its trailing whitespace is dropped. */
  function TrimEndIndex(s: string, a: nat, j: nat): (b: nat)
    requires a <= j <= |s|
    ensures a <= b <= j
    ensures forall k :: b <= k < j ==> IsSpace(s[k])
    ensures b == a || !IsSpace(s[b - 1])
  {
    if a < j && IsSpace(s[j - 1]) then TrimEndIndex(s, a, j - 1) else j
  }

  /** `r` is the infix of `s` at offset `a`, and everything around it is whitespace. */
  predicate TrimmedAt(s: string, a: nat, r: string)
  {
    a + |r| <= |s| && r == s[a..a + |r|]
    && (forall i :: 0 <= i < a ==> IsSpace(s[i]))
    && (forall i :: a + |r| <= i < |s| ==> IsSpace(s[i]))
  }

  /**
   * `s.trim()`: the longest infix of `s` that neither starts nor ends with
   * whitespace, everything cut off on either side being whitespace.
   */
  function Trim(s: string): (r: string)
    ensures r == [] || (!IsSpace(r[0]) && !IsSpace(r[|r| - 1]))
    ensures exists a: nat :: TrimmedAt(s, a, r)
  {
    var a := TrimStartIndex(s, 0);
    var b := TrimEndIndex(s, a, |s|);
    assert TrimmedAt(s, a, s[a..b]);
    s[a..b]
  }

  /**
   * The prefix a status name is matched by (`'Not'` for names starting with
   * "Not", otherwise the first three characters). The special case agrees
   * with the general one: the result is always the first three characters.
   */
  function StatusPrefix(name: string): (p: string)
    ensures p == name[..Min(3, |name|)]
    ensures StartsWith(name, p)
  {
    if StartsWith(name, "Not") then "Not" else name[..Min(3, |name|)]
  }

  /** `t.innerText.trim().substring(0, 3)`: the prefix an item's title contributes. */
  function TitlePrefix(title: string): (p: string)
    ensures |p| == Min(3, |Trim(title)|)
    ensures StartsWith(Trim(title), p)
  {
    var t := Trim(title);
    t[..Min(3, |t|)]
  }

  /** The prefix `filterEdits` matches titles against; `null` when no filter is set. */
  function FilterPrefix(filter: Option<string>): (p: Option<string>)
    ensures p.None? <==> filter.None? || filter.value == ""
    ensures p.Some? ==> p.value != "" && p.value == filter.value[..Min(3, |filter.value|)]
  {
    match filter
    case None => None
    case Some(name) => if name == "" then None else Some(StatusPrefix(name))
  }

  /**
   * The display flag `filterEdits` leaves on one item that was displayed as
   * `was`: an untitled item is not touched; a titled one is shown when there
   * is no filter prefix, or when its trimmed title starts with the prefix.
   */
  function Displayed(title: Option<string>, was: bool, prefix: Option<string>): (shown: bool)
    ensures title.None? ==> shown == was
    ensures title.Some? && prefix.None? ==> shown
    ensures title.Some? && prefix.Some? && |prefix.value| <= 3 ==>
              (shown <==> |prefix.value| <= |TitlePrefix(title.value)| && TitlePrefix(title.value)[..|prefix.value|] == prefix.value)
  {
    match title
    case None => was
    case Some(t) => prefix.None? || StartsWith(Trim(t), prefix.value)
  }

  /** The set of non-empty title prefixes of the items (the `prefixes` Set). */
  function TitlePrefixes(items: seq<Option<string>>): (prefixes: set<string>)
    ensures forall p :: p in prefixes ==> p != "" && |p| <= 3
  {
    set i | 0 <= i < |items| && items[i].Some? && TitlePrefix(items[i].value) != ""
      :: TitlePrefix(items[i].value)
  }

  /** Whether the panel considers a status present among the items. */
  predicate Present(name: string, prefixes: set<string>)
    ensures Present(name, prefixes) <==> name[..Min(3, |name|)] in prefixes
  {
    StatusPrefix(name) in prefixes
  }

  /** Every status name is at least three characters long, and the three prefixes differ. */
  lemma StatusPrefixesDistinct()
    ensures forall s :: s in Statuses ==> |s| >= 3 && |StatusPrefix(s)| == 3
    ensures StatusPrefix(Statuses[0]) == "Acc" && StatusPrefix(Statuses[1]) == "Pen"
      && StatusPrefix(Statuses[2]) == "Not"
  {
  }

  /**
   * Filtering and presence detection use the same rule: a title passes a
   * status's filter exactly when its three-character prefix is the status's
   * prefix.
   */
  lemma FilterAgreesWithPrefix(name: string, title: string)
    requires |name| >= 3
    ensures Displayed(Some(title), false, FilterPrefix(Some(name)))
      <==> TitlePrefix(title) == StatusPrefix(name)
  {
  }

  /**
   * A status counts as present exactly when filtering by it would show at
   * least one titled item: the panel never offers a button that hides
   * everything, and never lacks one for a status some item has.
   */
  lemma PresentIffSomeItemShown(name: string, items: seq<Option<string>>)
    requires |name| >= 3
    ensures Present(name, TitlePrefixes(items))
      <==> (exists i :: 0 <= i < |items| && items[i].Some?
               && Displayed(items[i], false, FilterPrefix(Some(name))))
  {
  }
}
