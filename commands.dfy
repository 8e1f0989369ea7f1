/**
 * The "/jas" chat command: "on" and "off" set the plugin's Enabled flag,
 * "config" and "settings" toggle the configuration window, and anything else
 * flips Enabled. The argument is matched after trimming surrounding white
 * space and lower-casing it. Every change of Enabled is saved and announced
 * in chat.
 */
module Commands {
  import opened Config

  const ChatPrefix: string := "[JobAutoSwitcher] "

  /** What a command does besides changing Enabled. */
  datatype Effect =
    | Save                    // the configuration is persisted
    | Chat(message: string)   // a line printed to the chat window
    | ToggleConfigUi          // the configuration window is shown or hidden

  /** The four branches of the command's dispatch. */
  datatype Command = TurnOn | TurnOff | OpenConfig | Flip

  /** The characters .NET's Char.IsWhiteSpace accepts, which String.Trim removes. */
  predicate IsWhiteSpace(c: char)
  {
    || '\U{0009}' <= c <= '\U{000D}'
    || c == ' '
    || c == '\U{0085}'
    || c == '\U{00A0}'
    || c == '\U{1680}'
    || '\U{2000}' <= c <= '\U{200A}'
    || c == '\U{2028}'
    || c == '\U{2029}'
    || c == '\U{202F}'
    || c == '\U{205F}'
    || c == '\U{3000}'
  }

  /** s without its leading white space. */
  function TrimStart(s: string): (r: string)
    ensures |r| <= |s| && r == s[|s| - |r|..]
    ensures r == [] || !IsWhiteSpace(r[0])
    ensures forall i :: 0 <= i < |s| - |r| ==> IsWhiteSpace(s[i])
  {
    if |s| > 0 && IsWhiteSpace(s[0]) then TrimStart(s[1..]) else s
  }

  /** s without its trailing white space. */
  function TrimEnd(s: string): (r: string)
    ensures |r| <= |s| && r == s[..|r|]
    ensures r == [] || !IsWhiteSpace(r[|r| - 1])
    ensures forall i :: |r| <= i < |s| ==> IsWhiteSpace(s[i])
  {
    if |s| > 0 && IsWhiteSpace(s[|s| - 1]) then TrimEnd(s[..|s| - 1]) else s
  }

  function Trim(s: string): string
  {
    TrimEnd(TrimStart(s))
  }

  /** The invariant-culture lower case of the letters A-Z and of the Latin-1 capitals. */
  function ToLowerChar(c: char): char
  {
    if 'A' <= c <= 'Z' || ('\U{00C0}' <= c <= '\U{00DE}' && c != '\U{00D7}')
    then (c as int + 32) as char
    else c
  }

  function ToLowerInvariant(s: string): string
  {
    seq(|s|, i requires 0 <= i < |s| => ToLowerChar(s[i]))
  }

  /** The argument as the dispatch compares it. */
  function Normalize(args: string): string
  {
    ToLowerInvariant(Trim(args))
  }

  function Parse(args: string): Command
  {
    Classify(Normalize(args))
  }

  /** The branch the dispatch takes for a normalized argument. */
  function Classify(a: string): Command
  {
    if a == "on" then TurnOn
    else if a == "off" then TurnOff
    else if a == "config" || a == "settings" then OpenConfig
    else Flip
  }

  /** The value of Enabled after a command. */
  function NextEnabled(enabled: bool, cmd: Command): bool
  {
    match cmd
    case TurnOn => true
    case TurnOff => false
    case OpenConfig => enabled
    case Flip => !enabled
  }

  function StatusMessage(enabled: bool): string
  {
    ChatPrefix + (if enabled then "Enabled." else "Disabled.")
  }

  /** The effects of a command issued while Enabled has the given value. */
  function CommandEffects(enabled: bool, cmd: Command): seq<Effect>
  {
    if cmd == OpenConfig then [ToggleConfigUi]
    else [Save, Chat(StatusMessage(NextEnabled(enabled, cmd)))]
  }

  class CommandHandler {
    const config: Configuration
    var effects: seq<Effect>

    constructor (config: Configuration)
      ensures this.config == config && effects == []
    {
      this.config := config;
      effects := [];
    }

    method OnCommand(command: string, args: string)
      modifies this, config
      ensures config.enabled == NextEnabled(old(config.enabled), Parse(args))
      ensures effects == old(effects) + CommandEffects(old(config.enabled), Parse(args))
    {
      var a := Normalize(args);
      ghost var cmd := Classify(a);
      assert cmd == Parse(args);
      if a == "on" {
        assert cmd == TurnOn;
        SetEnabled(true);
      } else if a == "off" {
        assert cmd == TurnOff;
        SetEnabled(false);
      } else if a == "config" || a == "settings" {
        assert cmd == OpenConfig;
        effects := effects + [ToggleConfigUi];
      } else {
        assert cmd == Flip;
        SetEnabled(!config.enabled);
      }
    }

    /** Sets Enabled, then saves the configuration and announces the new value. */
    method SetEnabled(enabled: bool)
      modifies this, config
      ensures config.enabled == enabled
      ensures effects == old(effects) + [Save, Chat(StatusMessage(enabled))]
    {
      config.enabled := enabled;
      effects := effects + [Save, Chat(StatusMessage(enabled))];
    }
  }

  // ---------------------------------------------------------------------------
  // Properties of the dispatch
  // ---------------------------------------------------------------------------

  /**
   * "on" and "off" set Enabled whatever its previous value, the configuration
   * commands leave it alone, and every other argument negates it.
   */
  lemma DispatchOutcome(enabled: bool, args: string)
    ensures Normalize(args) == "on" ==> NextEnabled(enabled, Parse(args))
    ensures Normalize(args) == "off" ==> !NextEnabled(enabled, Parse(args))
    ensures Normalize(args) in {"config", "settings"} ==>
      NextEnabled(enabled, Parse(args)) == enabled && CommandEffects(enabled, Parse(args)) == [ToggleConfigUi]
    ensures Normalize(args) !in {"on", "off", "config", "settings"} ==> NextEnabled(enabled, Parse(args)) == !enabled
  {
  }

  /** Two commands that both fall through to the default branch restore Enabled. */
  lemma FlipTwiceRestores(enabled: bool, first: string, second: string)
    requires Parse(first) == Flip && Parse(second) == Flip
    ensures NextEnabled(NextEnabled(enabled, Parse(first)), Parse(second)) == enabled
  {
  }

  /** Every change of Enabled is saved once and announced once, with a message matching the new value. */
  lemma EffectsAnnounceNewValue(enabled: bool, cmd: Command)
    requires cmd != OpenConfig
    ensures var e := CommandEffects(enabled, cmd);
      && |e| == 2 && e[0] == Save
      && e[1] == Chat(ChatPrefix + if NextEnabled(enabled, cmd) then "Enabled." else "Disabled.")
  {
  }

  lemma {:induction false} TrimStartPadding(pad: string, s: string)
    requires forall i :: 0 <= i < |pad| ==> IsWhiteSpace(pad[i])
    ensures TrimStart(pad + s) == TrimStart(s)
  {
    if pad == [] {
      assert pad + s == s;
    } else {
      assert (pad + s)[1..] == pad[1..] + s;
      TrimStartPadding(pad[1..], s);
    }
  }

  lemma {:induction false} TrimEndPadding(s: string, pad: string)
    requires forall i :: 0 <= i < |pad| ==> IsWhiteSpace(pad[i])
    ensures TrimEnd(s + pad) == TrimEnd(s)
  {
    if pad == [] {
      assert s + pad == s;
    } else {
      var shorter := pad[..|pad| - 1];
      assert (s + pad)[..|s + pad| - 1] == s + shorter;
      TrimEndPadding(s, shorter);
    }
  }

  /** When s holds a character that is not white space, trimming the front of s + t leaves t untouched. */
  lemma {:induction false} TrimStartAppend(s: string, t: string)
    requires exists i :: 0 <= i < |s| && !IsWhiteSpace(s[i])
    ensures TrimStart(s + t) == TrimStart(s) + t
  {
    if IsWhiteSpace(s[0]) {
      var i :| 0 <= i < |s| && !IsWhiteSpace(s[i]);
      assert !IsWhiteSpace(s[1..][i - 1]);
      assert (s + t)[1..] == s[1..] + t;
      TrimStartAppend(s[1..], t);
    }
  }

  /** Trimming ignores white space added around the argument. */
  lemma TrimPadding(before: string, s: string, after: string)
    requires forall i :: 0 <= i < |before| ==> IsWhiteSpace(before[i])
    requires forall i :: 0 <= i < |after| ==> IsWhiteSpace(after[i])
    ensures Trim(before + s + after) == Trim(s)
  {
    assert before + s + after == before + (s + after);
    TrimStartPadding(before, s + after);
    if exists i :: 0 <= i < |s| && !IsWhiteSpace(s[i]) {
      TrimStartAppend(s, after);
      TrimEndPadding(TrimStart(s), after);
    } else {
      TrimStartPadding(s, after);
      TrimStartPadding(after, []);
      assert after + [] == after;
      TrimStartPadding(s, []);
      assert s + [] == s;
    }
  }

  lemma LowerKeepsWhiteSpace(c: char)
    ensures IsWhiteSpace(ToLowerChar(c)) <==> IsWhiteSpace(c)
  {
  }

  /** Lower-casing keeps white space white space, so it commutes with trimming. */
  lemma {:induction false} LowerTrimStart(s: string)
    ensures ToLowerInvariant(TrimStart(s)) == TrimStart(ToLowerInvariant(s))
  {
    if |s| > 0 {
      var l := ToLowerInvariant(s);
      assert l[0] == ToLowerChar(s[0]);
      assert l[1..] == ToLowerInvariant(s[1..]);
      LowerKeepsWhiteSpace(s[0]);
      LowerTrimStart(s[1..]);
      if IsWhiteSpace(s[0]) {
        assert TrimStart(s) == TrimStart(s[1..]);
        assert TrimStart(l) == TrimStart(l[1..]);
      } else {
        assert TrimStart(s) == s;
        assert TrimStart(l) == l;
      }
    }
  }

  lemma {:induction false} LowerTrimEnd(s: string)
    ensures ToLowerInvariant(TrimEnd(s)) == TrimEnd(ToLowerInvariant(s))
  {
    if |s| > 0 {
      var l := ToLowerInvariant(s);
      assert l[|s| - 1] == ToLowerChar(s[|s| - 1]);
      assert l[..|s| - 1] == ToLowerInvariant(s[..|s| - 1]);
      LowerKeepsWhiteSpace(s[|s| - 1]);
      LowerTrimEnd(s[..|s| - 1]);
      if IsWhiteSpace(s[|s| - 1]) {
        assert TrimEnd(s) == TrimEnd(s[..|s| - 1]);
        assert TrimEnd(l) == TrimEnd(l[..|s| - 1]);
      } else {
        assert TrimEnd(s) == s;
        assert TrimEnd(l) == l;
      }
    }
  }

  /** Arguments that lower-case to the same string are dispatched alike. */
  lemma ParseIgnoresCase(s: string, t: string)
    requires ToLowerInvariant(s) == ToLowerInvariant(t)
    ensures Parse(s) == Parse(t)
  {
    LowerTrimStart(s);
    LowerTrimEnd(TrimStart(s));
    LowerTrimStart(t);
    LowerTrimEnd(TrimStart(t));
  }

  /** Arguments that differ only in surrounding white space are dispatched alike. */
  lemma ParseIgnoresPadding(before: string, s: string, after: string)
    requires forall i :: 0 <= i < |before| ==> IsWhiteSpace(before[i])
    requires forall i :: 0 <= i < |after| ==> IsWhiteSpace(after[i])
    ensures Parse(before + s + after) == Parse(s)
  {
    TrimPadding(before, s, after);
    assert Normalize(before + s + after) == Normalize(s);
  }

  /** "  ON " turns the plugin on, like "on". */
  lemma PaddedUpperCaseOn()
    ensures Parse("  ON ") == TurnOn
  {
    assert Trim("  ON ") == "ON" by {
      assert "  ON " == "  " + "ON" + " ";
      TrimPadding("  ", "ON", " ");
      TrimOn();
    }
    assert Normalize("  ON ") == "on" by {
      LowerOn();
    }
  }

  /** "ON" lower-cases to "on". */
  lemma LowerOn()
    ensures ToLowerInvariant("ON") == "on"
  {
    var l := ToLowerInvariant("ON");
    assert l[0] == 'o' && l[1] == 'n';
  }

  /** "ON" has no white space to trim. */
  lemma TrimOn()
    ensures Trim("ON") == "ON"
  {
    assert !IsWhiteSpace('O') && !IsWhiteSpace('N');
    assert TrimStart("ON") == "ON";
  }
}
