/** The literal command text the bridge sends to the set-top box: keystrokes
    (`KEYBOARD <key>`), channel tuning (`SETCH <number>`), and the readers
    that recover the key or channel from such a command. */
module Wire {
  import opened Wrappers
  import opened Text

  const KeyboardPrefix := "KEYBOARD "
  const ChannelPrefix := "SETCH "

  /** `keyboardkey(key)`: the command that presses one key. */
  function KeyboardKey(key: string): string
  {
    KeyboardPrefix + key + "\r"
  }

  /** `channel(number)`: the command that tunes to a channel number. */
  function SetChannel(number: nat): (cmd: string)
    ensures |cmd| > |ChannelPrefix| + 1
    ensures cmd[..|ChannelPrefix|] == ChannelPrefix
    ensures cmd[|cmd| - 1] == '\r'
    ensures forall i :: |ChannelPrefix| <= i < |cmd| - 1 ==> IsDigit(cmd[i])
  {
    ChannelPrefix + Decimal(number) + "\r"
  }

  /** The text between `prefix` and a final carriage return, if `cmd` has that shape. */
  function Between(cmd: string, prefix: string): (r: Option<string>)
    ensures r.Some? <==> |cmd| > |prefix| && cmd[..|prefix|] == prefix && cmd[|cmd| - 1] == '\r'
    ensures r.Some? ==> cmd == prefix + r.value + "\r"
  {
    if |cmd| > |prefix| && cmd[..|prefix|] == prefix && cmd[|cmd| - 1] == '\r' then
      assert cmd == cmd[..|prefix|] + cmd[|prefix|..|cmd| - 1] + [cmd[|cmd| - 1]];
      Some(cmd[|prefix|..|cmd| - 1])
    else None
  }

  /** The key a keystroke command presses, or None for any other text. */
  function KeyOf(cmd: string): Option<string>
  {
    Between(cmd, KeyboardPrefix)
  }

  /** The channel a tuning command selects, or None for any other text. */
  function ChannelOf(cmd: string): Option<nat>
  {
    match Between(cmd, ChannelPrefix)
    case Some(digits) =>
      if |digits| > 0 && forall i :: 0 <= i < |digits| ==> IsDigit(digits[i])
      then Some(ParseDecimal(digits)) else None
    case None => None
  }

  /** Reading back a keystroke command gives the key, and a command is a
      keystroke for exactly one key. */
  lemma KeyRoundTrip(key: string, cmd: string)
    ensures KeyOf(KeyboardKey(key)) == Some(key)
    ensures KeyOf(cmd) == Some(key) <==> cmd == KeyboardKey(key)
  {
    var c := KeyboardKey(key);
    assert c[..|KeyboardPrefix|] == KeyboardPrefix;
    assert c[|KeyboardPrefix|..|c| - 1] == key;
  }

  /** Reading back a tuning command gives the channel number. */
  lemma ChannelRoundTrip(number: nat)
    ensures ChannelOf(SetChannel(number)) == Some(number)
  {
    var c := SetChannel(number);
    var digits := Decimal(number);
    assert c[..|ChannelPrefix|] == ChannelPrefix;
    assert c[|ChannelPrefix|..|c| - 1] == digits;
    DecimalRoundTrip(number);
  }
}
