/**
 * The emoji controls of the emoji grid: the constant table of five score
 * ranges (each with its emoji and its caption, the source's `label`) and
 * the emoji-filter selection, which the buttons toggle and "Restaurar" resets.
 */
module Controls {
  import opened Wrappers

  type Emoji = string

  /** One entry of the table: an emoji, its caption and an inclusive integer range. */
  datatype EmojiRange = EmojiRange(emoji: Emoji, caption: string, lo: int, hi: int)

  /** The table, in the order the buttons are rendered and searched. */
  const EmojiRanges: seq<EmojiRange> := [
    EmojiRange("😁", "Excelente", 90, 100),
    EmojiRange("😊", "Bueno", 70, 89),
    EmojiRange("😐", "Regular", 50, 69),
    EmojiRange("😕", "Bajo", 30, 49),
    EmojiRange("😢", "Crítico", 0, 29)
  ]

  /** Whether the integer n lies in the inclusive range of entry r. */
  predicate Covers(r: EmojiRange, n: int) {
    r.lo <= n <= r.hi
  }

  /**
   * A table whose ranges are non-empty, listed from high to low, and where
   * each lower bound is one more than the next entry's upper bound.
   */
  predicate Contiguous(t: seq<EmojiRange>) {
    && (forall i :: 0 <= i < |t| ==> t[i].lo <= t[i].hi)
    && (forall i :: 0 <= i < |t| - 1 ==> t[i].lo == t[i + 1].hi + 1)
  }

  /** The set of emojis the table offers as buttons: five, one per entry, so the button keys are unique. */
  function TableEmojis(): (es: set<Emoji>)
    ensures forall i :: 0 <= i < |EmojiRanges| ==> EmojiRanges[i].emoji in es
    ensures forall e :: e in es ==> exists i :: 0 <= i < |EmojiRanges| && EmojiRanges[i].emoji == e
    ensures |es| == |EmojiRanges| == 5
  {
    var t := EmojiRanges;
    EmojisDistinct();
    {t[0].emoji, t[1].emoji, t[2].emoji, t[3].emoji, t[4].emoji}
  }

  /** The table has five entries, each range non-empty, contiguous, spanning 0..100. */
  lemma TableShape()
    ensures |EmojiRanges| == 5
    ensures Contiguous(EmojiRanges)
    ensures EmojiRanges[0].hi == 100 && EmojiRanges[4].lo == 0
  {
  }

  /** The five emojis (used as the buttons' keys) are pairwise distinct. */
  lemma EmojisDistinct()
    ensures forall i, j :: 0 <= i < j < |EmojiRanges| ==> EmojiRanges[i].emoji != EmojiRanges[j].emoji
  {
  }

  /** In a contiguous table every later entry lies wholly below every earlier one. */
  lemma {:induction false} ContiguousDescending(t: seq<EmojiRange>, i: int, j: int)
    requires Contiguous(t)
    requires 0 <= i < j < |t|
    ensures t[j].hi < t[i].lo
  {
    if j > i + 1 {
      ContiguousDescending(t, i, j - 1);
    }
  }

  /** In a contiguous table no integer lies in two different entries. */
  lemma ContiguousDisjoint(t: seq<EmojiRange>, i: int, j: int, n: int)
    requires Contiguous(t)
    requires 0 <= i < |t| && 0 <= j < |t| && i != j
    ensures !(Covers(t[i], n) && Covers(t[j], n))
  {
    if i < j {
      ContiguousDescending(t, i, j);
    } else {
      ContiguousDescending(t, j, i);
    }
  }

  /** A non-empty contiguous table covers every integer between its last lower and first upper bound. */
  lemma {:induction false} ContiguousCovers(t: seq<EmojiRange>, n: int) returns (i: int)
    requires Contiguous(t) && |t| > 0
    requires t[|t| - 1].lo <= n <= t[0].hi
    ensures 0 <= i < |t| && Covers(t[i], n)
  {
    if n >= t[0].lo {
      i := 0;
    } else {
      var k := ContiguousCovers(t[1..], n);
      i := k + 1;
    }
  }

  /** Every integer in 0..100 lies in exactly one entry of the table. */
  lemma TableCoversExactlyOnce(n: int) returns (i: int)
    requires 0 <= n <= 100
    ensures 0 <= i < |EmojiRanges| && Covers(EmojiRanges[i], n)
    ensures forall j :: 0 <= j < |EmojiRanges| && Covers(EmojiRanges[j], n) ==> j == i
  {
    TableShape();
    i := ContiguousCovers(EmojiRanges, n);
    forall j | 0 <= j < |EmojiRanges| && Covers(EmojiRanges[j], n)
      ensures j == i
    {
      if j != i {
        ContiguousDisjoint(EmojiRanges, i, j, n);
      }
    }
  }

  /** No integer outside 0..100 lies in any entry of the table. */
  lemma TableCoversNothingElse(n: int)
    requires n < 0 || n > 100
    ensures forall j :: 0 <= j < |EmojiRanges| ==> !Covers(EmojiRanges[j], n)
  {
    TableShape();
    forall j | 0 <= j < |EmojiRanges|
      ensures !Covers(EmojiRanges[j], n)
    {
      if j > 0 {
        ContiguousDescending(EmojiRanges, 0, j);
      }
      if j < |EmojiRanges| - 1 {
        ContiguousDescending(EmojiRanges, j, |EmojiRanges| - 1);
      }
    }
  }

  // ---------------------------------------------------------------------
  // The emoji-filter selection: `null` or one emoji, held by the parent.
  // ---------------------------------------------------------------------

  /** The new selection after pressing the button of `emoji`. */
  function Press(selected: Option<Emoji>, emoji: Emoji): (r: Option<Emoji>)
    ensures r == None || r == Some(emoji)
    ensures r == None <==> selected == Some(emoji)
  {
    if selected == Some(emoji) then None else Some(emoji)
  }

  /** "Restaurar" is rendered only while the selection is a non-empty string. */
  predicate RestoreOffered(selected: Option<Emoji>)
    ensures RestoreOffered(selected) ==> selected != None && selected != Some("")
  {
    selected.Some? && selected.value != ""
  }

  /** The user events of the controls: an emoji button or "Restaurar". */
  datatype Event = PressEmoji(emoji: Emoji) | Restore

  /** An event can only reach the selection through a rendered button. */
  predicate Enabled(selected: Option<Emoji>, ev: Event) {
    match ev
    case PressEmoji(e) => e in TableEmojis()
    case Restore => RestoreOffered(selected)
  }

  /** One step of the selection; an event without a rendered button changes nothing. */
  function Step(selected: Option<Emoji>, ev: Event): (r: Option<Emoji>)
    ensures !Enabled(selected, ev) ==> r == selected
    ensures ev.Restore? && Enabled(selected, ev) ==> r == None
    ensures ev.PressEmoji? && Enabled(selected, ev) ==> r == Press(selected, ev.emoji)
  {
    if !Enabled(selected, ev) then selected
    else match ev
      case PressEmoji(e) => Press(selected, e)
      case Restore => None
  }

  /** The selection after a sequence of events, from the first to the last. */
  function Run(selected: Option<Emoji>, events: seq<Event>): Option<Emoji>
    decreases |events|
  {
    if events == [] then selected
    else Run(Step(selected, events[0]), events[1..])
  }

  /** The selection is `null` or one of the table's emojis. */
  predicate Reachable(selected: Option<Emoji>) {
    selected.None? || selected.value in TableEmojis()
  }

  /** Pressing the same emoji twice starting from `null` returns to `null`. */
  lemma PressTwiceFromNone(emoji: Emoji)
    ensures Press(None, emoji) == Some(emoji)
    ensures Press(Press(None, emoji), emoji) == None
  {
  }

  /** Every enabled or disabled event keeps the selection reachable. */
  lemma StepKeepsReachable(selected: Option<Emoji>, ev: Event)
    requires Reachable(selected)
    ensures Reachable(Step(selected, ev))
  {
  }

  /** Starting from `null`, any sequence of events leaves the selection `null` or a table emoji. */
  lemma {:induction false} RunKeepsReachable(selected: Option<Emoji>, events: seq<Event>)
    requires Reachable(selected)
    ensures Reachable(Run(selected, events))
    decreases |events|
  {
    if events != [] {
      StepKeepsReachable(selected, events[0]);
      RunKeepsReachable(Step(selected, events[0]), events[1..]);
    }
  }

  /** Under a reachable selection, "Restaurar" is offered exactly when something is selected. */
  lemma RestoreOfferedWhenSelected(selected: Option<Emoji>)
    requires Reachable(selected)
    ensures RestoreOffered(selected) <==> selected.Some?
  {
    if selected.Some? {
      var i :| 0 <= i < |EmojiRanges| && EmojiRanges[i].emoji == selected.value;
    }
  }
}
