/** The autocomplete session of the template selector: the component state
    `index`, `search` and `target` (plus the editor `value`), the `@word`
    trigger test run after every change, and the key handler that moves the
    highlight, commits a candidate or cancels. The editing surface's ranges
    are an opaque type `R`; the look-back and look-ahead texts and ranges it
    computes are inputs. */
module Session {
  import Catalog
  import Codec

  datatype Option<T> = None | Some(value: T)

  /** The keys the handler distinguishes; every other key is `OtherKey`. */
  datatype Key = ArrowDown | ArrowUp | Tab | Enter | Escape | OtherKey(name: string)

  /** What a key press does to the editor: nothing (the key passes through),
      its default suppressed with no edit, or its default suppressed and the
      variable `name` inserted over `range`. */
  datatype KeyOutcome<R> = PassThrough | Suppressed | Commit(range: R, name: string)

  // ---------------------------------------------------------------------
  // The trigger test

  /** `\w` in a JavaScript regular expression. */
  predicate IsWordChar(c: char) {
    'A' <= c <= 'Z' || 'a' <= c <= 'z' || '0' <= c <= '9' || c == '_'
  }

  /** `\s` in a JavaScript regular expression. */
  predicate IsSpace(c: char) {
    c == ' ' || c == '\t' || c == '\n' || c == '\r' || c == '\U{000B}' || c == '\U{000C}'
    || c == '\U{00A0}' || c == '\U{1680}' || ('\U{2000}' <= c <= '\U{200A}')
    || c == '\U{2028}' || c == '\U{2029}' || c == '\U{202F}' || c == '\U{205F}'
    || c == '\U{3000}' || c == '\U{FEFF}'
  }

  function AllWordChars(w: string): (b: bool)
    ensures b <==> forall k :: 0 <= k < |w| ==> IsWordChar(w[k])
  {
    w == [] || (IsWordChar(w[0]) && AllWordChars(w[1..]))
  }

  /** The look-back test `/^@(\w+)$/` with its capture: the text matches
      exactly when it is `@` followed by one or more word characters, and the
      capture is everything after the `@`. */
  function TriggerWord(text: string): (r: Option<string>)
    ensures r.Some? <==>
      |text| >= 2 && text[0] == '@' && forall k :: 1 <= k < |text| ==> IsWordChar(text[k])
    ensures r.Some? ==> text == ['@'] + r.value && |r.value| >= 1
  {
    if |text| >= 2 && text[0] == '@' && AllWordChars(text[1..]) then Some(text[1..]) else None
  }

  /** The look-ahead test `/^(\s|$)/`: the cursor is at the end of the text
      or before whitespace. */
  predicate AtBoundary(text: string)
    ensures text == [] ==> AtBoundary(text)
    ensures |text| > 0 && IsWordChar(text[0]) ==> !AtBoundary(text)
  {
    |text| == 0 || IsSpace(text[0])
  }

  /** Capturing is the inverse of writing a trigger: `@w` is a trigger with
      capture `w` exactly when `w` is a non-empty run of word characters. */
  lemma {:induction false} TriggerWordInverse(w: string)
    ensures TriggerWord(['@'] + w) == Some(w)
        <==> |w| >= 1 && forall k :: 0 <= k < |w| ==> IsWordChar(w[k])
  {
    var t := ['@'] + w;
    assert t[1..] == w;
    assert forall k :: 1 <= k < |t| ==> t[k] == w[k - 1];
  }

  /** A look-back holding anything besides `@` and word characters, such as
      a space or a second `@`, never triggers. */
  lemma {:induction false} NoTriggerAcrossSpace(text: string, k: nat)
    requires 1 <= k < |text| && !IsWordChar(text[k])
    ensures TriggerWord(text).None?
  {
  }

  // ---------------------------------------------------------------------
  // Moving the highlight

  /** ArrowDown: `index >= n - 1 ? 0 : index + 1`, the next index modulo `n`. */
  function NextIndex(index: int, n: int): (r: int)
    requires n > 0
    ensures 0 <= index < n ==> 0 <= r < n && r == (index + 1) % n
  {
    if index >= n - 1 then 0 else index + 1
  }

  /** ArrowUp: `index <= 0 ? n - 1 : index - 1`, the previous index modulo `n`. */
  function PrevIndex(index: int, n: int): (r: int)
    requires n > 0
    ensures 0 <= index < n ==> 0 <= r < n && r == (index - 1) % n
  {
    if index <= 0 then n - 1 else index - 1
  }

  /** ArrowUp undoes ArrowDown and ArrowDown undoes ArrowUp. */
  lemma {:induction false} NavigationInverse(index: int, n: int)
    requires 0 <= index < n
    ensures PrevIndex(NextIndex(index, n), n) == index
    ensures NextIndex(PrevIndex(index, n), n) == index
  {
  }

  /** Pressing ArrowDown `k` times from `index`. */
  function DownPresses(index: int, n: int, k: nat): int
    requires n > 0
  {
    if k == 0 then index else NextIndex(DownPresses(index, n, k - 1), n)
  }

  /** `k` presses of ArrowDown land on `(index + k) % n`, so `n` presses
      come back to where they started. */
  lemma {:induction false} DownPressesWrap(index: int, n: int, k: nat)
    requires 0 <= index < n
    ensures DownPresses(index, n, k) == (index + k) % n
  {
    if k > 0 {
      DownPressesWrap(index, n, k - 1);
      var j := (index + k - 1) % n;
      assert NextIndex(j, n) == (j + 1) % n;
      ModStep(index + k - 1, n);
    }
  }

  lemma {:induction false} ModStep(a: int, n: int)
    requires n > 0
    ensures (a % n + 1) % n == (a + 1) % n
  {
    var q, r := a / n, a % n;
    assert a == q * n + r && 0 <= r < n;
    if r + 1 < n {
      ModUnique(a + 1, n, q, r + 1);
      ModUnique(r + 1, n, 0, r + 1);
    } else {
      assert a + 1 == (q + 1) * n;
      ModUnique(a + 1, n, q + 1, 0);
      ModUnique(r + 1, n, 1, 0);
    }
  }

  lemma {:induction false} ModUnique(m: int, n: int, q: int, r: int)
    requires n > 0 && 0 <= r < n && m == q * n + r
    ensures m % n == r
  {
    var q', r' := m / n, m % n;
    assert m == q' * n + r';
    assert (q - q') * n == r' - r;
    if q > q' {
      MulAtLeast(q - q', n);
    } else if q < q' {
      MulAtLeast(q' - q, n);
    }
  }

  lemma {:induction false} MulAtLeast(d: int, n: int)
    requires d >= 1 && n > 0
    ensures d * n >= n
    decreases d
  {
    if d > 1 {
      MulAtLeast(d - 1, n);
      assert d * n == (d - 1) * n + n;
    }
  }

  // ---------------------------------------------------------------------
  // The component state

  class Selector<R> {
    const options: seq<string>
    const size: nat
    var index: int
    var search: string
    var target: Option<R>
    /** The editor value: the children of each paragraph. */
    var value: seq<Codec.Document>

    /** `chars = filter(search)`: the candidates on offer. */
    function Chars(): (r: seq<string>)
      reads this
      ensures |r| <= size
      ensures forall x :: x in r ==> x in options && Catalog.Matches(x, search)
    {
      Catalog.Filter(options, size, search)
    }

    /** The highlight is on a candidate, or at 0 when there is none. */
    ghost predicate Valid()
      reads this
    {
      0 <= index && (index == 0 || index < |Chars()|)
    }

    /** Mounting: `filter = filterOp(options, size)`, the value decoded from
        `defaultValue ?? ''`, no session. */
    constructor (defaultValue: Option<string>, options: seq<string>, size: nat)
      requires Codec.Decodable(if defaultValue.Some? then defaultValue.value else "")
      ensures Valid()
      ensures this.options == options && this.size == size
      ensures index == 0 && search == "" && target == None
      ensures value == [Codec.ParseFrom(if defaultValue.Some? then defaultValue.value else "",
                                        0, Codec.CatalogFilter(options, size))]
    {
      this.options := options;
      this.size := size;
      var children := Codec.Decode(if defaultValue.Some? then defaultValue.value else "",
                                   Codec.CatalogFilter(options, size));
      value := [children];
      index := 0;
      search := "";
      target := None;
    }

    /** `handleValueChange`: store the new value (an empty paragraph when
        there is none), then re-derive the session from the cursor context.
        `collapsed` says there is a selection and it is collapsed; `lookBack`
        is the range and text from one character before the word before the
        cursor up to the cursor, when the surface has both positions;
        `lookAhead` is the text from the cursor to the next position. */
    method HandleValueChange(newValue: Option<seq<Codec.Document>>, collapsed: bool,
                             lookBack: Option<(R, string)>, lookAhead: string)
      requires Valid()
      modifies this
      ensures Valid()
      ensures value == if newValue.Some? then newValue.value else [[Codec.Text("")]]
      // no selection, or an expanded one: the session ends, search and index stay
      ensures !collapsed ==> target == None && search == old(search) && index == old(index)
      // a trigger before the cursor and a boundary after it: a fresh session
      ensures collapsed && lookBack.Some? && TriggerWord(lookBack.value.1).Some?
                && AtBoundary(lookAhead)
              ==> target == Some(lookBack.value.0)
                  && search == TriggerWord(lookBack.value.1).value && index == 0
      // otherwise nothing about the session changes
      ensures collapsed && !(lookBack.Some? && TriggerWord(lookBack.value.1).Some?
                             && AtBoundary(lookAhead))
              ==> target == old(target) && search == old(search) && index == old(index)
    {
      if newValue.Some? {
        value := newValue.value;
      } else {
        var empty := Codec.Decode("", Codec.CatalogFilter(options, size));
        Codec.EmptyDecodes(Codec.CatalogFilter(options, size));
        value := [empty];
      }
      if !collapsed {
        target := None;
        return;
      }
      var beforeMatch := if lookBack.Some? then TriggerWord(lookBack.value.1) else None;
      var afterMatch := AtBoundary(lookAhead);
      if beforeMatch.None? || !afterMatch {
        return;
      }
      target := Some(lookBack.value.0);
      search := beforeMatch.value;
      index := 0;
    }

    /** `onKeyDown`: inactive without a session or candidates; otherwise the
        arrows move the highlight round the candidates, Tab and Enter insert
        the highlighted candidate over the session's range and end the
        session, Escape ends it, and every other key passes through. */
    method OnKeyDown(key: Key) returns (outcome: KeyOutcome<R>)
      requires Valid()
      modifies this`index, this`target
      ensures Valid()
      ensures old(target).None? || |Chars()| == 0 ==>
                outcome == PassThrough && index == old(index) && target == old(target)
      ensures old(target).Some? && |Chars()| > 0 ==>
        match key
        case ArrowDown =>
          outcome == Suppressed && target == old(target)
          && index == NextIndex(old(index), |Chars()|)
        case ArrowUp =>
          outcome == Suppressed && target == old(target)
          && index == PrevIndex(old(index), |Chars()|)
        case Tab | Enter =>
          outcome == Commit(old(target).value, Chars()[old(index)])
          && target == None && index == old(index)
        case Escape =>
          outcome == Suppressed && target == None && index == old(index)
        case OtherKey(_) =>
          outcome == PassThrough && target == old(target) && index == old(index)
    {
      var chars := Chars();
      if target.None? || |chars| == 0 {
        return PassThrough;
      }
      match key
      case ArrowDown =>
        index := if index >= |chars| - 1 then 0 else index + 1;
        outcome := Suppressed;
      case ArrowUp =>
        index := if index <= 0 then |chars| - 1 else index - 1;
        outcome := Suppressed;
      case Tab =>
        outcome := Commit(target.value, chars[index]);
        target := None;
      case Enter =>
        outcome := Commit(target.value, chars[index]);
        target := None;
      case Escape =>
        target := None;
        outcome := Suppressed;
      case OtherKey(_) =>
        outcome := PassThrough;
    }

    /** A click on the `i`-th candidate of the popup, which is shown only
        while there is a session and candidates: insert that candidate over
        the session's range and end the session. */
    method ClickCandidate(i: nat) returns (outcome: KeyOutcome<R>)
      requires Valid()
      requires target.Some? && i < |Chars()|
      modifies this`target
      ensures Valid()
      ensures outcome == Commit(old(target).value, Chars()[i]) && target == None
    {
      outcome := Commit(target.value, Chars()[i]);
      target := None;
    }
  }
}
