/** Where identifiers are cut: exactly when wrapping at hyphens keeps hyphen groups together. */
module HyphenLaws {
  import opened Text
  import opened Wrapping
  import opened WrappingLaws

  // ---------- hyphen groups ----------

  predicate EndsInHyphen(s: string) {
    s != "" && s[|s| - 1] == '-'
  }

  predicate HyphenIn(line: string, lo: nat, hi: nat)
    requires hi <= |line|
  {
    exists i :: lo <= i < hi && line[i] == '-'
  }

  /** A hyphen group is the text up to a hyphen, the hyphen included, or what stands behind the last one. */
  predicate IsGroup(line: string, s: nat, e: nat) {
    && s < e <= |line| && (s == 0 || line[s - 1] == '-') && (e == |line| || line[e - 1] == '-')
    && !HyphenIn(line, s, e - 1)
  }

  /** The length of the first hyphen group. */
  function GroupLength(text: string): (g: nat)
    ensures g <= |text| && (text != "" ==> g > 0)
  {
    if text == "" then 0 else if text[0] == '-' then 1 else 1 + GroupLength(text[1..])
  }

  lemma {:induction false} GroupLengthMeans(text: string)
    ensures var g := GroupLength(text);
            (forall i :: 0 <= i < g - 1 ==> text[i] != '-') && (g < |text| ==> text[g - 1] == '-')
  {
    if text == "" || text[0] == '-' {
    } else {
      var rest := text[1..];
      GroupLengthMeans(rest);
      forall i | 1 <= i < GroupLength(text) - 1 ensures text[i] != '-' {
        assert text[i] == rest[i - 1];
      }
      assert GroupLength(text) < |text| ==> text[GroupLength(text) - 1] == rest[GroupLength(rest) - 1];
    }
  }

  function GroupLengths(text: string): seq<nat>
    decreases |text|
  {
    if text == "" then [] else [GroupLength(text)] + GroupLengths(text[GroupLength(text)..])
  }

  predicate GroupsFit(groups: seq<nat>, width: nat) {
    forall i :: 0 <= i < |groups| ==> groups[i] <= width
  }

  function Total(groups: seq<nat>): nat {
    if groups == [] then 0 else groups[0] + Total(groups[1..])
  }

  /**
   * Filling pieces of `width` with groups of these lengths, `used` being taken already, splits no group that fits.  A
   * group joins the piece that it fits into; otherwise it starts the next piece, and a group longer than a piece fills
   * pieces.  But a lone hyphen ends no piece: the loop does not look at index 0, so it fills up the piece instead.
   */
  predicate Packs(groups: seq<nat>, used: nat, width: nat)
    requires width >= 1
    decreases Total(groups) + |groups|, used
  {
    if groups == [] then true
    else
      var g, rest := groups[0], groups[1..];
      if used + g <= width then Packs(rest, used + g, width)
      else if used == 0 then Packs([g - width] + rest, 0, width)
      else if used == 1 && width >= 2 then g > width && Packs([g - (width - 1)] + rest, 0, width)
      else Packs(groups, 0, width)
  }

  // ---------- what keeping groups together means ----------

  /** Every piece but the last ends in a hyphen, so that no group at all is spread over pieces. */
  ghost predicate KeepsGroups(pieces: seq<string>) {
    forall k :: 0 <= k < |pieces| - 1 ==> EndsInHyphen(pieces[k])
  }

  /** A cut at `at` falls inside a group of at most `width` characters. */
  ghost predicate SplitsShort(line: string, at: nat, width: nat) {
    exists s: nat, e: nat :: IsGroup(line, s, e) && s < at < e && e - s <= width
  }

  /** None of the places where pieces meet, the first piece standing at `from`, splits a group that fits. */
  ghost predicate KeepsShortFrom(line: string, from: nat, pieces: seq<string>, width: nat) {
    forall k :: 0 < k < |pieces| ==> !SplitsShort(line, from + |Concat(pieces[..k])|, width)
  }

  ghost predicate KeepsShortGroups(line: string, pieces: seq<string>, width: nat) {
    KeepsShortFrom(line, 0, pieces, width)
  }

  // ---------- one cut ----------

  lemma HyphenCut(line: string, width: nat)
    requires 0 < width < |line| && HyphenIn(line, 1, width)
    ensures var head := Divide(AtHyphen, line, width).0;
            2 <= |head| <= width && head == line[..|head|] && EndsInHyphen(head) && !HyphenIn(line, |head|, width)
  {
    var hyphen := LastWhere(c => c == '-', line, width - 1);
    assert hyphen > 0;
  }

  lemma PlainCut(line: string, width: nat)
    requires 0 < width < |line| && NoSpace(line) && !HyphenIn(line, 1, width)
    ensures Divide(AtHyphen, line, width).0 == line[..width]
  {
    forall i | 0 <= i < |line| ensures !IsSpace(line[i]) {
      assert line[i] in line;
    }
    assert LastWhere(c => c == '-', line, width - 1) == 0 && LastWhere(IsSpace, line, width - 1) == 0;
    TrimmedAlready(line[..width]);
  }

  /** Where a line without white space is cut: after its last hyphen at index 1 or more, or else at the width. */
  ghost predicate CutAt(line: string, width: nat, h: nat) {
    && 0 < h <= width < |line|
    && if HyphenIn(line, 1, width) then h >= 2 && line[h - 1] == '-' && !HyphenIn(line, h, width) else h == width
  }

  /** A cut loses nothing of a line without white space, and falls where `CutAt` says. */
  lemma CutAtHyphen(line: string, width: nat)
    requires 0 < width < |line| && NoSpace(line)
    ensures var (head, tail) := Divide(AtHyphen, line, width);
            && head + tail == line && NoSpace(tail) && TrimLeft(tail) == tail && tail != ""
            && CutAt(line, width, |head|)
  {
    DivideRestores(AtHyphen, line, width);
    if HyphenIn(line, 1, width) {
      HyphenCut(line, width);
    } else {
      PlainCut(line, width);
    }
  }

  /** A lone hyphen in front of a group that fills the column: the loop does not look at index 0, so it finds no cut. */
  predicate Stuck(rest: string, width: nat) {
    2 <= width < |rest| && rest[0] == '-' && !HyphenIn(rest, 1, width)
  }

  /** Such a group that fits the column exactly. */
  predicate StuckAtShort(rest: string, width: nat) {
    Stuck(rest, width) && (|rest| == width + 1 || rest[width] == '-')
  }

  /** Wherever a cut is made, it splits a group that fits exactly when it is made behind a lone hyphen and in front of its end. */
  lemma CutSplitsIff(line: string, from: nat, width: nat, h: nat)
    requires from <= |line| && CutAt(line[from..], width, h)
    ensures SplitsShort(line, from + h, width) <==> StuckAtShort(line[from..], width)
  {
    var text := line[from..];
    if StuckAtShort(text, width) {
      StuckGroup(line, from, width);
    }
    if SplitsShort(line, from + h, width) {
      var s: nat, e: nat :| IsGroup(line, s, e) && s < from + h < e && e - s <= width;
      NoHyphenInside(line, s, e, from + h - 1);
      assert text[h - 1] == line[from + h - 1];
      assert h == width;
      GroupBehindHyphen(line, from, width, s, e);
    }
  }

  lemma NoHyphenInside(line: string, s: nat, e: nat, i: nat)
    requires IsGroup(line, s, e) && s <= i < e - 1
    ensures line[i] != '-'
  {
  }

  lemma StuckGroup(line: string, from: nat, width: nat)
    requires from <= |line| && StuckAtShort(line[from..], width)
    ensures SplitsShort(line, from + width, width)
  {
    var text, s, e := line[from..], from + 1, from + 1 + width;
    assert line[from] == text[0] && line[e - 1] == text[width];
    forall i | s <= i < e - 1 ensures line[i] != '-' {
      assert line[i] == text[i - from];
    }
    assert IsGroup(line, s, e);
  }

  /** A group that fits and reaches over a cut at the width starts behind a hyphen at the front of the piece. */
  lemma GroupBehindHyphen(line: string, from: nat, width: nat, s: nat, e: nat)
    requires from + width < |line| && 0 < width && !HyphenIn(line[from..], 1, width)
    requires IsGroup(line, s, e) && s < from + width < e && e - s <= width
    ensures StuckAtShort(line[from..], width)
  {
    var text := line[from..];
    assert s > from;
    assert line[s - 1] == text[s - 1 - from] == '-';
    assert s == from + 1;
    assert text[width] == line[e - 1];
  }

  // ---------- group lengths of a text behind a place ----------

  lemma {:induction false} GroupLengthDrop(text: string, k: nat)
    requires k < GroupLength(text)
    ensures GroupLength(text[k..]) == GroupLength(text) - k
  {
    if k == 0 {
      assert text[0..] == text;
    } else {
      GroupLengthDrop(text[1..], k - 1);
      assert text[k..] == text[1..][k - 1..];
    }
  }

  lemma DropDrop(text: string, u: nat, k: nat)
    requires u + k <= |text|
    ensures text[u..][k..] == text[u + k..]
  {
  }

  lemma LengthsFrom(text: string, g: nat, rest: string)
    requires text != "" && g == GroupLength(text) && rest == text[g..]
    ensures GroupLengths(text) == [g] + GroupLengths(rest)
  {
  }

  /** Cutting inside the first group shortens it and leaves the others. */
  lemma GroupLengthsDrop(text: string, k: nat, back: string)
    requires k < GroupLength(text) && back == text[k..]
    ensures GroupLengths(back) == [GroupLength(text) - k] + GroupLengths(text[GroupLength(text)..])
  {
    var g := GroupLength(text);
    GroupLengthDrop(text, k);
    DropDrop(text, k, g - k);
    LengthsFrom(back, g - k, text[g..]);
  }

  lemma {:induction false} TotalOfLengths(text: string)
    ensures Total(GroupLengths(text)) == |text|
    decreases |text|
  {
    if text == "" {
    } else {
      var rest := text[GroupLength(text)..];
      LengthsFrom(text, GroupLength(text), rest);
      TotalOfLengths(rest);
      assert ([GroupLength(text)] + GroupLengths(rest))[1..] == GroupLengths(rest);
    }
  }

  // ---------- filling pieces with group lengths, and the cuts of the text ----------

  lemma {:induction false} PacksWithin(groups: seq<nat>, used: nat, width: nat)
    requires width >= 1 && used + Total(groups) <= width
    ensures Packs(groups, used, width)
    decreases |groups|
  {
    if groups == [] {
    } else {
      PacksWithin(groups[1..], used + groups[0], width);
    }
  }

  lemma PacksJoins(g: nat, rest: seq<nat>, used: nat, width: nat)
    requires width >= 1 && used + g <= width
    ensures Packs([g] + rest, used, width) <==> Packs(rest, used + g, width)
  {
    assert ([g] + rest)[1..] == rest;
  }

  lemma PacksOver(g: nat, rest: seq<nat>, used: nat, width: nat)
    requires width >= 1 && used + g > width
    ensures used == 0 ==> (Packs([g] + rest, used, width) <==> Packs([g - width] + rest, 0, width))
    ensures used == 1 && width >= 2 ==>
              (Packs([g] + rest, used, width) <==> g > width && Packs([g - (width - 1)] + rest, 0, width))
    ensures used >= 2 || used == 1 == width ==> (Packs([g] + rest, used, width) <==> Packs([g] + rest, 0, width))
  {
    assert ([g] + rest)[1..] == rest;
  }

  /** The walk from a place of the text up to which the piece holds whole groups, `rest` standing behind it. */
  ghost predicate PacksRest(rest: string, used: nat, width: nat)
    requires width >= 1
  {
    Packs(GroupLengths(rest), used, width)
  }

  ghost predicate PacksText(text: string, width: nat)
    requires width >= 1
  {
    PacksRest(text, 0, width)
  }

  lemma PacksShort(text: string, width: nat)
    requires 1 <= width && |text| <= width
    ensures PacksText(text, width)
  {
    TotalOfLengths(text);
    PacksWithin(GroupLengths(text), 0, width);
  }

  /** A first group longer than the piece: the cut falls inside it. */
  lemma PacksLong(text: string, width: nat, tail: string)
    requires 1 <= width < GroupLength(text) && tail == text[width..]
    ensures PacksText(text, width) <==> PacksText(tail, width)
  {
    var g, others := GroupLength(text), GroupLengths(text[GroupLength(text)..]);
    LengthsFrom(text, g, text[g..]);
    GroupLengthsDrop(text, width, tail);
    PacksOver(g, others, 0, width);
  }

  /** A lone hyphen in front of a group that is as wide as the column or wider. */
  lemma PacksLone(rest: string, width: nat, tail: string)
    requires 2 <= width <= GroupLength(rest) && tail == rest[width - 1..]
    ensures PacksRest(rest, 1, width) <==> GroupLength(rest) > width && PacksText(tail, width)
  {
    var g, others := GroupLength(rest), GroupLengths(rest[GroupLength(rest)..]);
    LengthsFrom(rest, g, rest[g..]);
    GroupLengthsDrop(rest, width - 1, tail);
    PacksOver(g, others, 1, width);
  }

  /** A piece that ends in a hyphen and has no room for the next group. */
  lemma PacksNext(rest: string, used: nat, width: nat)
    requires width >= 1 && rest != "" && used + GroupLength(rest) > width && (used >= 2 || used == 1 == width)
    ensures PacksRest(rest, used, width) <==> PacksText(rest, width)
  {
    var g := GroupLength(rest);
    LengthsFrom(rest, g, rest[g..]);
    PacksOver(g, GroupLengths(rest[g..]), used, width);
  }

  lemma PacksStep(rest: string, used: nat, width: nat, g: nat, next: string)
    requires width >= 1 && rest != "" && g == GroupLength(rest) && used + g <= width && next == rest[g..]
    ensures PacksRest(rest, used, width) <==> PacksRest(next, used + g, width)
  {
    LengthsFrom(rest, g, next);
    PacksJoins(g, GroupLengths(next), used, width);
  }

  /** `rest` stands behind `u` characters of the text, which end in a hyphen. */
  ghost predicate Filled(text: string, u: nat, rest: string) {
    u <= |text| && rest == text[u..] && (u > 0 ==> text[u - 1] == '-')
  }

  /** Between the filled part and the width there is no hyphen. */
  lemma NoneLeft(text: string, u: nat, rest: string, width: nat)
    requires Filled(text, u, rest) && u <= width < |text| && u + GroupLength(rest) > width
    ensures !HyphenIn(text, u, width)
  {
    GroupLengthMeans(rest);
    forall i | u <= i < width ensures text[i] != '-' {
      assert text[i] == rest[i - u];
    }
  }

  lemma LoneIff(text: string, rest: string, width: nat)
    requires Filled(text, 1, rest) && 2 <= width < |text| && 1 + GroupLength(rest) > width
    ensures StuckAtShort(text, width) <==> GroupLength(rest) == width
  {
    GroupLengthMeans(rest);
    var g := GroupLength(rest);
    NoneLeft(text, 1, rest, width);
    assert text[width] == rest[width - 1];
  }

  /** The piece is full: its next group does not fit. */
  lemma PacksFull(text: string, u: nat, rest: string, width: nat, h: nat, tail: string)
    requires 1 <= width && CutAt(text, width, h) && tail == text[h..] && Filled(text, u, rest) && u <= width
    requires u + GroupLength(rest) > width
    ensures PacksRest(rest, u, width) <==> !StuckAtShort(text, width) && PacksText(tail, width)
  {
    NoneLeft(text, u, rest, width);
    if u == 0 {
      assert rest == text && h == width;
      PacksLong(text, width, tail);
    } else if u == 1 && width >= 2 {
      assert h == width;
      DropDrop(text, 1, width - 1);
      LoneIff(text, rest, width);
      PacksLone(rest, width, tail);
    } else {
      assert text[u - 1] == '-' && h == u;
      PacksNext(rest, u, width);
    }
  }

  /** The walk comes out as `packed` from a place where `u` characters of the piece are taken. */
  ghost predicate ComesOut(text: string, u: nat, width: nat, packed: bool)
    requires width >= 1 && u <= |text|
  {
    PacksRest(text[u..], u, width) <==> packed
  }

  lemma NextGroup(text: string, u: nat, width: nat, g: nat, packed: bool)
    requires width >= 1 && u + g <= width < |text| && g == GroupLength(text[u..])
    ensures g > 0 && text[u + g - 1] == '-'
    ensures ComesOut(text, u + g, width, packed) ==> ComesOut(text, u, width, packed)
  {
    GroupLengthMeans(text[u..]);
    var rest := text[u..];
    assert text[u + g - 1] == rest[g - 1];
    DropDrop(text, u, g);
    PacksStep(rest, u, width, g, text[u + g..]);
  }

  lemma LastGroup(text: string, u: nat, width: nat, h: nat, packed: bool)
    requires 1 <= width && CutAt(text, width, h) && u <= width && (u > 0 ==> text[u - 1] == '-')
    requires packed <==> !StuckAtShort(text, width) && PacksText(text[h..], width)
    requires u + GroupLength(text[u..]) > width
    ensures ComesOut(text, u, width, packed)
  {
    PacksFull(text, u, text[u..], width, h, text[h..]);
  }

  /** One piece of the walk is one cut of the text; `packed` is what is left to find out behind the cut. */
  lemma {:induction false} PacksPiece(text: string, u: nat, width: nat, h: nat, packed: bool)
    requires 1 <= width && CutAt(text, width, h) && u <= width && (u > 0 ==> text[u - 1] == '-')
    requires packed <==> !StuckAtShort(text, width) && PacksText(text[h..], width)
    ensures ComesOut(text, u, width, packed)
    decreases width - u
  {
    var g := GroupLength(text[u..]);
    if u + g > width {
      LastGroup(text, u, width, h, packed);
    } else {
      NextGroup(text, u, width, g, packed);
      PacksPiece(text, u + g, width, h, packed);
    }
  }

  lemma PacksCut(text: string, width: nat, h: nat)
    requires width >= 1 && CutAt(text, width, h)
    ensures PacksText(text, width) <==> !StuckAtShort(text, width) && PacksText(text[h..], width)
  {
    assert text[0..] == text;
    PacksPiece(text, 0, width, h, !StuckAtShort(text, width) && PacksText(text[h..], width));
  }

  // ---------- all cuts ----------

  lemma PiecesCons(line: string, width: nat)
    requires 0 < width < |line| && NoSpace(line)
    ensures var (head, tail) := Divide(AtHyphen, line, width);
            && Pieces(AtHyphen, line, width) == [head] + Pieces(AtHyphen, tail, width)
            && head == line[..|head|] && tail == line[|head|..]
  {
    CutAtHyphen(line, width);
    var (head, tail) := Divide(AtHyphen, line, width);
    assert line[..|head|] == head && line[|head|..] == tail;
  }

  lemma KeepsShortCons(line: string, from: nat, head: string, pieces: seq<string>, width: nat)
    requires pieces != []
    ensures KeepsShortFrom(line, from, [head] + pieces, width)
            <==> !SplitsShort(line, from + |head|, width) && KeepsShortFrom(line, from + |head|, pieces, width)
  {
    var all := [head] + pieces;
    forall k | 0 < k < |all| ensures |Concat(all[..k])| == |head| + |Concat(pieces[..k - 1])| {
      assert all[..k][0] == head && all[..k][1..] == pieces[..k - 1];
    }
    assert Concat(pieces[..0]) == "";
    if KeepsShortFrom(line, from, all, width) {
      assert !SplitsShort(line, from + |Concat(all[..1])|, width);
      forall k | 0 < k < |pieces| ensures !SplitsShort(line, from + |head| + |Concat(pieces[..k])|, width) {
        assert !SplitsShort(line, from + |Concat(all[..k + 1])|, width);
      }
    }
    if !SplitsShort(line, from + |head|, width) && KeepsShortFrom(line, from + |head|, pieces, width) {
      forall k | 0 < k < |all| ensures !SplitsShort(line, from + |Concat(all[..k])|, width) {
        assert k > 1 ==> !SplitsShort(line, from + |head| + |Concat(pieces[..k - 1])|, width);
      }
    }
  }

  /** Wrapping the text that stands at `from` splits no group of the whole line that fits. */
  ghost predicate Kept(line: string, from: nat, text: string, width: nat)
    requires width >= 1
  {
    KeepsShortFrom(line, from, Pieces(AtHyphen, text, width), width)
  }

  lemma KeptShort(line: string, from: nat, text: string, width: nat)
    requires 1 <= width && |text| <= width
    ensures Kept(line, from, text, width)
  {
    assert Pieces(AtHyphen, text, width) == [text];
  }

  lemma KeepsShortStep(line: string, from: nat, text: string, head: string, tail: string, width: nat)
    requires width >= 1 && from <= |line| && text == line[from..] && NoSpace(text) && |text| > width
    requires (head, tail) == Divide(AtHyphen, text, width)
    ensures Kept(line, from, text, width) <==> !StuckAtShort(text, width) && Kept(line, from + |head|, tail, width)
  {
    CutAtHyphen(text, width);
    PiecesCons(text, width);
    CutSplitsIff(line, from, width, |head|);
    KeepsShortCons(line, from, head, Pieces(AtHyphen, tail, width), width);
  }

  lemma Behind(line: string, from: nat, text: string, head: string, tail: string)
    requires StandsAt(line, from, text) && head + tail == text
    ensures StandsAt(line, from + |head|, tail)
  {
  }

  lemma PacksDivided(text: string, head: string, tail: string, width: nat)
    requires 0 < width < |text| && NoSpace(text) && (head, tail) == Divide(AtHyphen, text, width)
    ensures head + tail == text && head != "" && NoSpace(tail) && CutAt(text, width, |head|)
    ensures PacksText(text, width) <==> !StuckAtShort(text, width) && PacksText(tail, width)
  {
    CutAtHyphen(text, width);
    PiecesCons(text, width);
    PacksCut(text, width, |head|);
  }

  ghost predicate StandsAt(line: string, from: nat, text: string) {
    from <= |line| && text == line[from..]
  }

  lemma NoSpaceThere(line: string, from: nat, text: string)
    requires NoSpace(line) && StandsAt(line, from, text)
    ensures NoSpace(text)
  {
  }

  /** From a place of the line on, keeping the groups that fit is the same as packing them. */
  ghost predicate Agree(line: string, from: nat, text: string, width: nat)
    requires width >= 1
  {
    Kept(line, from, text, width) <==> PacksText(text, width)
  }

  lemma AgreeStep(line: string, from: nat, text: string, head: string, tail: string, width: nat)
    requires width >= 1 && StandsAt(line, from, text) && NoSpace(text) && |text| > width
    requires (head, tail) == Divide(AtHyphen, text, width)
    ensures Agree(line, from + |head|, tail, width) ==> Agree(line, from, text, width)
  {
    PacksDivided(text, head, tail, width);
    KeepsShortStep(line, from, text, head, tail, width);
  }

  /** The text goes on behind the cut. */
  lemma TailStands(line: string, from: nat, text: string, head: string, tail: string, width: nat)
    requires width >= 1 && StandsAt(line, from, text) && NoSpace(text) && |text| > width
    requires (head, tail) == Divide(AtHyphen, text, width)
    ensures head != "" && StandsAt(line, from + |head|, tail)
  {
    CutAtHyphen(text, width);
    Behind(line, from, text, head, tail);
  }

  function NextCut(line: string, from: nat, width: nat): nat
    requires from <= |line|
  {
    from + |Divide(AtHyphen, line[from..], width).0|
  }

  lemma CutInside(line: string, from: nat, width: nat)
    requires width >= 1 && NoSpace(line) && from <= |line| && |line| - from > width
    ensures from < NextCut(line, from, width) < |line|
  {
    NoSpaceThere(line, from, line[from..]);
    CutAtHyphen(line[from..], width);
  }

  lemma AgreeFrom(line: string, from: nat, next: nat, width: nat)
    requires width >= 1 && NoSpace(line) && from <= |line| && |line| - from > width
    requires next == NextCut(line, from, width) <= |line| && Agree(line, next, line[next..], width)
    ensures Agree(line, from, line[from..], width)
  {
    var text := line[from..];
    var parts := Divide(AtHyphen, text, width);
    NoSpaceThere(line, from, text);
    TailStands(line, from, text, parts.0, parts.1, width);
    AgreeStep(line, from, text, parts.0, parts.1, width);
  }

  lemma {:induction false} KeptIff(line: string, from: nat, width: nat)
    requires width >= 1 && NoSpace(line) && from <= |line|
    ensures Agree(line, from, line[from..], width)
    decreases |line| - from
  {
    if |line| - from <= width {
      KeptShort(line, from, line[from..], width);
      PacksShort(line[from..], width);
    } else {
      var next := NextCut(line, from, width);
      CutInside(line, from, width);
      KeptIff(line, next, width);
      AgreeFrom(line, from, next, width);
    }
  }

  lemma {:induction false} GroupLengthsAppend(head: string, tail: string)
    requires EndsInHyphen(head)
    ensures GroupLengths(head + tail) == GroupLengths(head) + GroupLengths(tail)
    decreases |head|
  {
    var g := GroupLength(head);
    GroupLengthAppend(head, tail);
    assert (head + tail)[g..] == head[g..] + tail;
    if g == |head| {
      assert head[g..] == "" && "" + tail == tail;
      assert GroupLengths(head) == [g];
    } else {
      GroupLengthsAppend(head[g..], tail);
      Assoc([g], GroupLengths(head[g..]), GroupLengths(tail));
    }
  }

  lemma {:induction false} GroupLengthAppend(head: string, tail: string)
    requires EndsInHyphen(head)
    ensures GroupLength(head + tail) == GroupLength(head)
  {
    assert (head + tail)[0] == head[0];
    if head[0] == '-' {
    } else {
      GroupLengthAppend(head[1..], tail);
      assert (head + tail)[1..] == head[1..] + tail;
    }
  }

  lemma {:induction false} GroupsWithin(text: string, width: nat)
    requires |text| <= width
    ensures GroupsFit(GroupLengths(text), width)
    decreases |text|
  {
    if text == "" {
    } else {
      GroupsWithin(text[GroupLength(text)..], width);
    }
  }

  /** Behind a cut at a hyphen, the groups of the rest fit exactly when those of the line do. */
  lemma GroupsFitRest(line: string, head: string, tail: string, width: nat)
    requires line == head + tail && EndsInHyphen(head) && |head| <= width
    ensures GroupsFit(GroupLengths(line), width) <==> GroupsFit(GroupLengths(tail), width)
  {
    GroupLengthsAppend(head, tail);
    GroupsWithin(head, width);
    FitAppend(GroupLengths(head), GroupLengths(tail), width);
  }

  lemma FitAppend(p: seq<nat>, q: seq<nat>, width: nat)
    ensures GroupsFit(p + q, width) <==> GroupsFit(p, width) && GroupsFit(q, width)
  {
    if GroupsFit(p + q, width) {
      forall i | 0 <= i < |q| ensures q[i] <= width {
        assert (p + q)[|p| + i] == q[i];
      }
      forall i | 0 <= i < |p| ensures p[i] <= width {
        assert (p + q)[i] == p[i];
      }
    }
  }

  /** A cut that does not fall at a hyphen breaks a group: one that is too long, or one behind a lone hyphen. */
  lemma NoHyphenMeans(line: string, width: nat, h: nat)
    requires CutAt(line, width, h) && line[h - 1] != '-'
    ensures !GroupsFit(GroupLengths(line), width) || StuckAtShort(line, width)
  {
    GroupLengthMeans(line);
    var g := GroupLength(line);
    if line[0] != '-' {
      assert g > width;
      assert GroupLengths(line)[0] == g;
    } else {
      var rest := line[1..];
      var second := GroupLength(rest);
      GroupLengthMeans(rest);
      assert GroupLengths(line) == [1] + GroupLengths(rest);
      assert GroupLengths(line)[1] == second;
      assert forall i :: 1 <= i < width ==> line[i] == rest[i - 1] != '-';
      assert second >= width;
      assert second == width && second < |rest| ==> rest[second - 1] == line[width];
    }
  }

  lemma KeepsGroupsCons(head: string, pieces: seq<string>)
    requires pieces != []
    ensures KeepsGroups([head] + pieces) <==> EndsInHyphen(head) && KeepsGroups(pieces)
  {
    var all := [head] + pieces;
    if KeepsGroups(all) {
      assert all[0] == head;
      forall k | 0 <= k < |pieces| - 1 ensures EndsInHyphen(pieces[k]) {
        assert all[k + 1] == pieces[k];
      }
    }
  }

  lemma StuckEnds(line: string, width: nat, h: nat)
    requires CutAt(line, width, h)
    ensures Stuck(line, width) ==> line[h - 1] != '-'
  {
  }

  /** All groups fit and filling pieces splits none of them. */
  ghost predicate FitAndPack(text: string, width: nat)
    requires width >= 1
  {
    GroupsFit(GroupLengths(text), width) && PacksText(text, width)
  }

  lemma FitAndPackCut(text: string, head: string, tail: string, width: nat)
    requires 0 < width < |text| && NoSpace(text) && (head, tail) == Divide(AtHyphen, text, width)
    ensures FitAndPack(text, width) <==> EndsInHyphen(head) && FitAndPack(tail, width)
  {
    PacksDivided(text, head, tail, width);
    assert text[|head| - 1] == head[|head| - 1];
    StuckEnds(text, width, |head|);
    if EndsInHyphen(head) {
      GroupsFitRest(text, head, tail, width);
    } else {
      NoHyphenMeans(text, width, |head|);
    }
  }

  lemma {:induction false} PiecesKeepGroupsIff(line: string, width: nat)
    requires width >= 1 && NoSpace(line)
    ensures KeepsGroups(Pieces(AtHyphen, line, width)) <==> FitAndPack(line, width)
    decreases |line|
  {
    if |line| <= width {
      assert Pieces(AtHyphen, line, width) == [line];
      GroupsWithin(line, width);
      PacksShort(line, width);
    } else {
      var (head, tail) := Divide(AtHyphen, line, width);
      PacksDivided(line, head, tail, width);
      PiecesCons(line, width);
      KeepsGroupsCons(head, Pieces(AtHyphen, tail, width));
      FitAndPackCut(line, head, tail, width);
      PiecesKeepGroupsIff(tail, width);
    }
  }

  // ---------- whole identifiers ----------

  lemma IdentifierPieces(value: string, width: nat)
    requires width >= 1 && NoSpace(value)
    ensures WrapIdentifierCell(value, width) == Pieces(AtHyphen, value, width)
  {
    NormaliseNothing(value, '\n');
    assert '\n' !in value by { assert IsSpace('\n'); }
    SplitNone(value, '\n');
    assert WrapLines(AtHyphen, [value], width) == WrapLine(AtHyphen, value, width) + [] == WrapLine(AtHyphen, value, width);
    if value != "" {
      TrimmedAlready(value);
    }
  }

  /**
   * For a value without white space, no hyphen group of at most `width` characters is split, however long the others
   * are, exactly when filling pieces with groups of the value's group lengths splits none.
   */
  lemma {:induction false} ShortGroupsKeptIff(value: string, width: nat)
    requires width >= 1 && NoSpace(value)
    ensures KeepsShortGroups(value, WrapIdentifierCell(value, width), width) <==> Packs(GroupLengths(value), 0, width)
  {
    IdentifierPieces(value, width);
    assert value[0..] == value;
    KeptIff(value, 0, width);
  }

  /** Every piece but the last ends in a hyphen exactly when, moreover, all groups fit. */
  lemma {:induction false} GroupsKeptIff(value: string, width: nat)
    requires width >= 1 && NoSpace(value)
    ensures KeepsGroups(WrapIdentifierCell(value, width))
            <==> GroupsFit(GroupLengths(value), width) && Packs(GroupLengths(value), 0, width)
  {
    IdentifierPieces(value, width);
    PiecesKeepGroupsIff(value, width);
  }

  // ---------- simple conditions ----------

  /** No lone hyphen stands directly in front of a group as wide as the column. */
  predicate NoLoneBeforeFull(groups: seq<nat>, width: nat) {
    forall i :: 0 <= i < |groups| - 1 && groups[i] == 1 ==> groups[i + 1] != width
  }

  lemma {:induction false} FittingGroupsPack(groups: seq<nat>, used: nat, width: nat)
    requires 1 <= width && GroupsFit(groups, width) && NoLoneBeforeFull(groups, width)
    requires forall i :: 0 <= i < |groups| ==> groups[i] > 0
    requires used == 1 && groups != [] ==> groups[0] != width || width == 1
    ensures Packs(groups, used, width)
    decreases |groups|, used
  {
    if groups == [] {
    } else if used + groups[0] <= width {
      FittingGroupsPack(groups[1..], used + groups[0], width);
    } else {
      assert groups[0] <= width;
      FittingGroupsPack(groups, 0, width);
    }
  }

  lemma {:induction false} GroupLengthsPositive(text: string, i: nat)
    requires i < |GroupLengths(text)|
    ensures GroupLengths(text)[i] > 0
    decreases |text|
  {
    if i == 0 {
    } else {
      GroupLengthsPositive(text[GroupLength(text)..], i - 1);
    }
  }

  /** All groups are kept together when they fit and none as wide as the column follows a lone hyphen. */
  lemma {:induction false} GroupsKeptWithoutLone(value: string, width: nat)
    requires width >= 1 && NoSpace(value) && NoLoneBeforeFull(GroupLengths(value), width)
    ensures KeepsGroups(WrapIdentifierCell(value, width)) <==> GroupsFit(GroupLengths(value), width)
  {
    GroupsKeptIff(value, width);
    if GroupsFit(GroupLengths(value), width) {
      forall i | 0 <= i < |GroupLengths(value)| ensures GroupLengths(value)[i] > 0 {
        GroupLengthsPositive(value, i);
      }
      FittingGroupsPack(GroupLengths(value), 0, width);
    }
  }

  /** Hyphens stand alone: none at the front, and no two next to each other. */
  predicate SingleHyphens(line: string) {
    forall i :: 0 <= i < |line| && line[i] == '-' ==> i > 0 && line[i - 1] != '-'
  }

  lemma {:induction false} SingleHasNoLone(text: string, i: nat)
    requires SingleHyphens(text) && i < |GroupLengths(text)| - 1
    ensures GroupLengths(text)[i] != 1
    decreases |text|
  {
    GroupLengthMeans(text);
    var g := GroupLength(text);
    var rest := text[g..];
    if i == 0 {
      assert rest != "";
    } else {
      forall j | 0 <= j < |rest| && rest[j] == '-' ensures j > 0 && rest[j - 1] != '-' {
        assert text[g + j] == '-' && text[g + j - 1] != '-';
        assert j > 0 ==> rest[j - 1] == text[g + j - 1];
      }
      SingleHasNoLone(rest, i - 1);
    }
  }

  /** With single hyphens inside, as in a UUID, all groups are kept together exactly when they fit. */
  lemma {:induction false} SingleGroupsKeptIff(value: string, width: nat)
    requires width >= 1 && NoSpace(value) && SingleHyphens(value)
    ensures KeepsGroups(WrapIdentifierCell(value, width)) <==> GroupsFit(GroupLengths(value), width)
  {
    forall i | 0 <= i < |GroupLengths(value)| - 1 ensures GroupLengths(value)[i] != 1 {
      SingleHasNoLone(value, i);
    }
    GroupsKeptWithoutLone(value, width);
  }

  // ---------- failing inputs ----------

  /** A lone hyphen at the front, before a group as wide as the column or wider, splits that group. */
  lemma StuckSplits(value: string, width: nat)
    requires NoSpace(value) && Stuck(value, width)
    ensures !KeepsGroups(WrapIdentifierCell(value, width))
  {
    IdentifierPieces(value, width);
    CutAtHyphen(value, width);
    PiecesCons(value, width);
    var (head, tail) := Divide(AtHyphen, value, width);
    StuckEnds(value, width, |head|);
    KeepsGroupsCons(head, Pieces(AtHyphen, tail, width));
  }

  lemma LengthsOfWords(value: string, word: string, rest: string)
    requires value == word + "-" + rest && '-' !in word
    ensures GroupLengths(value) == [|word| + 1] + GroupLengths(rest)
  {
    GroupLengthMeans(value);
    var g := GroupLength(value);
    assert value[|word|] == '-';
    assert forall i :: 0 <= i < |word| ==> value[i] == word[i];
    assert g == |word| + 1;
    assert value[g..] == rest;
  }

  lemma LengthsOfLast(word: string)
    requires word != "" && '-' !in word
    ensures GroupLengths(word) == [|word|]
  {
    GroupLengthMeans(word);
    forall i | 0 <= i < |word| ensures word[i] != '-' {
      assert word[i] in word;
    }
    assert GroupLength(word) == |word|;
    assert word[|word|..] == "";
  }

  /** All groups fit, and one of them is split because of the lone hyphen in front of it. */
  lemma LoneHyphenExample(value: string)
    requires value == "-ab"
    ensures GroupsFit(GroupLengths(value), 2) && !KeepsGroups(WrapIdentifierCell(value, 2))
  {
    assert value[0] == '-' && value[1] == 'a' && value[2] == 'b' && |value| == 3;
    StuckSplits(value, 2);
    LoneLengths(value, value[1..]);
  }

  lemma LoneLengths(value: string, rest: string)
    requires |value| == 3 && value[0] == '-' && rest == value[1..] && '-' !in rest
    ensures GroupsFit(GroupLengths(value), 2)
  {
    LengthsFrom(value, 1, rest);
    LengthsOfLast(rest);
  }

  /** Single hyphens, and yet a group that fits is split: the end of a long group is left alone in front of it. */
  lemma LongGroupExample(value: string)
    requires value == "aa-b-c"
    ensures SingleHyphens(value) && !KeepsShortGroups(value, WrapIdentifierCell(value, 2), 2)
  {
    var rest, last := value[3..], value[5..];
    assert rest == "b-c" && last == "c";
    assert value == "aa" + "-" + rest;
    LongGroupLengths(value, rest, last);
    SpoiledPacking(GroupLengths(value));
    ShortGroupsKeptIff(value, 2);
  }

  lemma LongGroupLengths(value: string, rest: string, last: string)
    requires value == "aa" + "-" + rest && rest == "b" + "-" + last && last == "c"
    ensures GroupLengths(value) == [3, 2, 1]
  {
    LengthsOfWords(value, "aa", rest);
    LengthsOfWords(rest, "b", last);
    LengthsOfLast(last);
  }

  lemma SpoiledPacking(groups: seq<nat>)
    requires groups == [3, 2, 1]
    ensures !Packs(groups, 0, 2)
  {
    assert groups == [3] + [2, 1];
    PacksOver(3, [2, 1], 0, 2);
    PacksJoins(1, [2, 1], 0, 2);
    assert [2, 1] == [2] + [1];
    PacksOver(2, [1], 1, 2);
  }
}
