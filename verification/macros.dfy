/** The three macro commands. Each expands into the commands it sends at once
    and the timers it registers; a timer is a value (relative delay in
    milliseconds, action), listed in the order the macro registers it. */
module Macros {
  import opened Wrappers
  import opened Text
  import opened Wire

  /** What a timer does when it fires: send one command through `command`,
      or run one step of the channel change for a channel number. */
  datatype Action = Command(cmd: string) | ChangeChannel(number: string)

  datatype Timer = Timer(delay: nat, action: Action)

  /** A macro's expansion: `now` is sent synchronously, in order, when the
      macro is invoked; `timers` are registered in order. */
  datatype Plan = Plan(now: seq<string>, timers: seq<Timer>)

  const TeleportTivo := "TELEPORT TIVO\r"
  const TeleportLiveTv := "TELEPORT LIVETV\r"

  /** The channel number `watchfootball` asks for. */
  const FootballChannel := "1038"

  /** A keystroke timer: press `key` after `delay` milliseconds. */
  function Key(key: string, delay: nat): Timer
  {
    Timer(delay, Command(KeyboardKey(key)))
  }

  /** Keystroke timers pressing `keys[i]` after `delays[i]` milliseconds. */
  function Keystrokes(keys: seq<string>, delays: seq<nat>): (timers: seq<Timer>)
    requires |keys| == |delays|
    ensures |timers| == |keys|
    ensures forall i :: 0 <= i < |keys| ==> timers[i] == Key(keys[i], delays[i])
  {
    if |keys| == 0 then [] else [Key(keys[0], delays[0])] + Keystrokes(keys[1..], delays[1..])
  }

  /** The keys `watchnetflix` presses, in order, and when. */
  const NetflixKeys := ["DOWN", "DOWN", "DOWN", "RIGHT", "DOWN", "DOWN", "DOWN", "SELECT"]
  const NetflixDelays: seq<nat> := [1000, 1250, 1500, 2000, 2250, 2500, 2750, 3250]

  /** `watchnetflix`: teleport to the TiVo menu at once, then walk it to the
      app tile with one keystroke after each of `NetflixDelays`. */
  function WatchNetflix(): (p: Plan)
    ensures p.now == [TeleportTivo]
    ensures |p.timers| == |NetflixKeys|
    ensures forall i :: 0 <= i < |p.timers| ==> p.timers[i].delay == NetflixDelays[i]
  {
    Plan([TeleportTivo], Keystrokes(NetflixKeys, NetflixDelays))
  }

  /** `watchfootball`: teleport to live TV at once, then check readiness for
      channel 1038 after 250 ms. */
  function WatchFootball(): (p: Plan)
    ensures p.now == [TeleportLiveTv]
    ensures |p.timers| == 1
    ensures p.timers[0].delay == 250
    ensures p.timers[0].action == ChangeChannel(FootballChannel)
  {
    Plan([TeleportLiveTv], [Timer(250, ChangeChannel(FootballChannel))])
  }

  /** The keystrokes that bring `search` to the search field, whatever the text. */
  const SearchPrefix := [Key("DOWN", 1000), Key("DOWN", 1500), Key("DOWN", 2000),
                         Key("RIGHT", 2500), Key("SELECT", 3000)]

  /** The key `search` presses for one character: SPACE for a space, else the
      character upper-cased. */
  function KeyFor(c: char): string
  {
    if c == ' ' then "SPACE" else [Upper(c)]
  }

  /** The keystroke for the character at index `n`, 50 ms after the previous one. */
  function CharKey(text: string, n: nat): Timer
    requires n < |text|
  {
    Key(KeyFor(text[n]), 3000 + 50 * n)
  }

  /** The keystrokes the loop `for (i = start; i < bound; i++)` of `search` registers. */
  function CharKeys(text: string, start: nat, bound: int): (keys: seq<Timer>)
    requires bound <= |text|
    decreases |text| - start
    ensures |keys| == if start < bound then bound - start else 0
    ensures forall j :: 0 <= j < |keys| ==> keys[j] == CharKey(text, start + j)
  {
    if start < bound then [CharKey(text, start)] + CharKeys(text, start + 1, bound) else []
  }

  /** `search(text)` as written: its loop stops at `text.length - 1`, so the
      last character of `text` is never typed. */
  function Search(text: string): (p: Plan)
    ensures p.now == [TeleportTivo]
    ensures |p.timers| == |SearchPrefix| + |AllButLast(text)|
    ensures p.timers[..|SearchPrefix|] == SearchPrefix
    ensures forall i :: 0 <= i < |AllButLast(text)| ==> p.timers[|SearchPrefix| + i] == CharKey(text, i)
  {
    Plan([TeleportTivo], SearchPrefix + CharKeys(text, 0, |text| - 1))
  }

  /** `search(text)` with the loop running over every character. */
  function SearchAll(text: string): (p: Plan)
    ensures p.now == [TeleportTivo]
    ensures |p.timers| == |SearchPrefix| + |text|
    ensures p.timers[..|SearchPrefix|] == SearchPrefix
    ensures forall i :: 0 <= i < |text| ==> p.timers[|SearchPrefix| + i] == CharKey(text, i)
  {
    Plan([TeleportTivo], SearchPrefix + CharKeys(text, 0, |text|))
  }

  /** The timers' delays never decrease along the sequence, so the order they
      fire in is the order they are registered in. */
  predicate NonDecreasing(timers: seq<Timer>)
  {
    forall i, j :: 0 <= i < j < |timers| ==> timers[i].delay <= timers[j].delay
  }

  predicate StrictlyIncreasing(timers: seq<Timer>)
  {
    forall i, j :: 0 <= i < j < |timers| ==> timers[i].delay < timers[j].delay
  }

  /** The character a keystroke types in a text field, if it types one. */
  function TypedChar(t: Timer): Option<char>
  {
    match t.action
    case Command(cmd) =>
      (match KeyOf(cmd)
       case Some(key) =>
         if key == "SPACE" then Some(' ') else if |key| == 1 then Some(key[0]) else None
       case None => None)
    case ChangeChannel(_) => None
  }

  /** The text a sequence of keystrokes types, or None if one of them is not a
      typing keystroke. */
  function Typed(timers: seq<Timer>): Option<string>
  {
    if |timers| == 0 then Some("")
    else match (TypedChar(timers[0]), Typed(timers[1..]))
      case (Some(c), Some(rest)) => Some([c] + rest)
      case _ => None
  }

  /** Every character comes back from its keystroke upper-cased. */
  lemma TypedCharKey(text: string, n: nat)
    requires n < |text|
    ensures TypedChar(CharKey(text, n)) == Some(Upper(text[n]))
  {
    KeyRoundTrip(KeyFor(text[n]), KeyboardKey(KeyFor(text[n])));
  }

  /** The keystrokes of the loop from `start` to `bound` type exactly the
      characters `text[start..bound]`, upper-cased. */
  lemma {:induction false} TypedCharKeys(text: string, start: nat, bound: int)
    requires bound <= |text|
    ensures start < bound ==> Typed(CharKeys(text, start, bound)) == Some(UpperAll(text[start..bound]))
    ensures bound <= start ==> Typed(CharKeys(text, start, bound)) == Some("")
    decreases |text| - start
  {
    if start < bound {
      var keys := CharKeys(text, start, bound);
      TypedCharKey(text, start);
      TypedCharKeys(text, start + 1, bound);
      assert keys[1..] == CharKeys(text, start + 1, bound);
      var tail := if start + 1 < bound then UpperAll(text[start + 1..bound]) else "";
      assert Typed(keys) == Some([Upper(text[start])] + tail);
      assert [Upper(text[start])] + tail == UpperAll(text[start..bound]);
    }
  }

  /** `text` without its last character (empty text stays empty). */
  function AllButLast(text: string): (r: string)
    ensures |text| > 0 ==> |r| == |text| - 1 && r == text[..|text| - 1]
    ensures |text| == 0 ==> r == ""
  {
    if |text| == 0 then "" else text[..|text| - 1]
  }

  /** `search` types every character of the text but the last, upper-cased,
      with a space typed as SPACE; after the five fixed keystrokes there is
      nothing else. */
  lemma SearchTypesAllButLast(text: string)
    ensures Typed(Search(text).timers[|SearchPrefix|..]) == Some(UpperAll(AllButLast(text)))
  {
    var timers := Search(text).timers;
    assert timers[|SearchPrefix|..] == CharKeys(text, 0, |text| - 1);
    TypedCharKeys(text, 0, |text| - 1);
    if |text| > 1 {
      assert text[0..|text| - 1] == AllButLast(text);
    }
  }

  /** The corrected `search` types every character of the text. */
  lemma SearchAllTypesEveryCharacter(text: string)
    ensures Typed(SearchAll(text).timers[|SearchPrefix|..]) == Some(UpperAll(text))
  {
    var timers := SearchAll(text).timers;
    assert timers[|SearchPrefix|..] == CharKeys(text, 0, |text|);
    TypedCharKeys(text, 0, |text|);
    if |text| > 0 {
      assert text[0..|text|] == text;
    }
  }

  /** As written, `search` types one character fewer than the text holds, so it
      never types the whole text unless the text is empty. */
  lemma SearchDropsLastCharacter(text: string)
    requires |text| > 0
    ensures Typed(Search(text).timers[|SearchPrefix|..]).Some?
    ensures |Typed(Search(text).timers[|SearchPrefix|..]).value| == |text| - 1
    ensures Typed(Search(text).timers[|SearchPrefix|..]) != Some(UpperAll(text))
  {
    SearchTypesAllButLast(text);
  }

  /** `search("ab")` types only "A"; `search("A B")` presses A at 3000 ms and
      SPACE at 3050 ms and nothing for the final B. */
  lemma SearchExamples()
    ensures Typed(Search("ab").timers[|SearchPrefix|..]) == Some("A")
    ensures Search("A B").timers[|SearchPrefix|..] == [Key("A", 3000), Key("SPACE", 3050)]
  {
    SearchTypesAllButLast("ab");
    assert AllButLast("ab") == "a";
    assert UpperAll("a") == [Upper('a')] == "A";
    var keys := Search("A B").timers[|SearchPrefix|..];
    assert keys == CharKeys("A B", 0, 2);
    assert keys[0] == CharKey("A B", 0) && keys[1] == CharKey("A B", 1);
  }

  /** `search` sends `TELEPORT TIVO` at once, registers the five fixed
      keystrokes first whatever the text, and then one keystroke for each
      character but the last: the i-th at 3000 + 50 i ms. */
  lemma SearchSchedule(text: string)
    ensures Search(text).now == [TeleportTivo]
    ensures Search(text).timers[..5] ==
      [Key("DOWN", 1000), Key("DOWN", 1500), Key("DOWN", 2000), Key("RIGHT", 2500), Key("SELECT", 3000)]
    ensures |Search(text).timers| == 5 + |AllButLast(text)|
    ensures forall i :: 0 <= i < |AllButLast(text)| ==>
      Search(text).timers[5 + i] == Key(KeyFor(text[i]), 3000 + 50 * i)
  {
    var timers := Search(text).timers;
    assert timers[..5] == SearchPrefix;
    forall i | 0 <= i < |AllButLast(text)|
      ensures timers[5 + i] == Key(KeyFor(text[i]), 3000 + 50 * i)
    {
      assert timers[5 + i] == CharKeys(text, 0, |text| - 1)[i];
    }
  }

  /** A space is pressed as SPACE; any other character is pressed as itself, upper-cased. */
  lemma KeyForCharacter(c: char)
    ensures c == ' ' <==> KeyFor(c) == "SPACE"
    ensures c != ' ' ==> KeyFor(c) == [Upper(c)] && KeyboardKey(KeyFor(c)) == "KEYBOARD " + [Upper(c)] + "\r"
    ensures c == ' ' ==> KeyboardKey(KeyFor(c)) == "KEYBOARD SPACE\r"
  {
  }

  /** The keystrokes of `search` are registered in the order they fire. */
  lemma SearchInFiringOrder(text: string)
    ensures NonDecreasing(Search(text).timers)
    ensures forall i :: 0 <= i < |Search(text).timers| ==> Search(text).timers[i].delay >= 1000
  {
    var timers := Search(text).timers;
    forall i | 0 <= i < |timers|
      ensures 1000 <= timers[i].delay
      ensures i < 5 ==> timers[i].delay <= 3000
      ensures i >= 5 ==> timers[i].delay == 3000 + 50 * (i - 5)
    {
      if i < 5 {
        assert timers[i] == timers[..5][i];
      } else {
        assert timers[i] == CharKey(text, i - 5);
      }
    }
    forall i, j | 0 <= i < j < |timers|
      ensures timers[i].delay <= timers[j].delay
    {
      if j < 5 {
        assert timers[i] == SearchPrefix[i] && timers[j] == SearchPrefix[j];
      }
    }
  }

  /** `watchnetflix` sends `TELEPORT TIVO` at once, then registers exactly
      eight keystrokes: DOWN at 1000, 1250 and 1500 ms, RIGHT at 2000 ms, DOWN
      at 2250, 2500 and 2750 ms, SELECT at 3250 ms. */
  lemma WatchNetflixSchedule()
    ensures WatchNetflix().now == ["TELEPORT TIVO\r"]
    ensures WatchNetflix().timers ==
      [Key("DOWN", 1000), Key("DOWN", 1250), Key("DOWN", 1500), Key("RIGHT", 2000),
       Key("DOWN", 2250), Key("DOWN", 2500), Key("DOWN", 2750), Key("SELECT", 3250)]
  {
    var timers := WatchNetflix().timers;
    assert |timers| == 8 && forall i :: 0 <= i < 8 ==> timers[i] == Key(NetflixKeys[i], NetflixDelays[i]);
  }

  /** The eight keystrokes of `watchnetflix` press, in order, the keys of `NetflixKeys`. */
  lemma WatchNetflixKeys()
    ensures forall i :: 0 <= i < |WatchNetflix().timers| ==>
      KeyOf(WatchNetflix().timers[i].action.cmd) == Some(NetflixKeys[i])
  {
    var timers := WatchNetflix().timers;
    forall i | 0 <= i < |timers|
      ensures KeyOf(timers[i].action.cmd) == Some(NetflixKeys[i])
    {
      KeyRoundTrip(NetflixKeys[i], timers[i].action.cmd);
    }
  }

  /** The keystrokes of `watchnetflix` have strictly increasing delays, so no
      two fire together and they fire in the order they are registered. */
  lemma WatchNetflixInFiringOrder()
    ensures StrictlyIncreasing(WatchNetflix().timers)
  {
    var timers := WatchNetflix().timers;
    assert forall i :: 0 <= i < |timers| - 1 ==> timers[i].delay < timers[i + 1].delay by {
      assert forall i :: 0 <= i < |timers| ==> timers[i].delay == NetflixDelays[i];
    }
    StepsUpIsIncreasing(timers);
  }

  /** Delays that grow from each timer to the next grow along the whole sequence. */
  lemma StepsUpIsIncreasing(timers: seq<Timer>)
    requires forall i :: 0 <= i < |timers| - 1 ==> timers[i].delay < timers[i + 1].delay
    ensures StrictlyIncreasing(timers)
  {
    forall i, j | 0 <= i < j < |timers|
      ensures timers[i].delay < timers[j].delay
    {
      StepsUpFrom(timers, i, j);
    }
  }

  lemma {:induction false} StepsUpFrom(timers: seq<Timer>, i: nat, j: nat)
    requires forall k :: 0 <= k < |timers| - 1 ==> timers[k].delay < timers[k + 1].delay
    requires i < j < |timers|
    ensures timers[i].delay < timers[j].delay
    decreases j - i
  {
    if i + 1 < j {
      StepsUpFrom(timers, i + 1, j);
    }
  }
}
