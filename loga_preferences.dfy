/**
 * LogaEditorPreferences: the project settings page's "Use Logs" toggle,
 * which adds or removes the LOGA_ENABLE_PLAYER_LOGS symbol in the
 * ';'-separated scripting define strings of the Android and iOS targets.
 *
 * The string operations are C#'s ordinal ones: Contains is a substring
 * test, Replace a left-to-right replacement of non-overlapping
 * occurrences, and Trim(';') strips the character from both ends.
 */
module LogaPreferences {
  import opened Wrappers

  const LogaDefine: string := "LOGA_ENABLE_PLAYER_LOGS"

  /** `sub` occurs in `s` at position i. */
  predicate OccursAt(s: string, sub: string, i: nat)
  {
    i + |sub| <= |s| && s[i..i + |sub|] == sub
  }

  /** String.Contains: an ordinal substring test (the empty string occurs everywhere). */
  predicate Contains(s: string, sub: string)
  {
    exists i: nat :: i <= |s| && OccursAt(s, sub, i)
  }

  /** String.Replace(pat, rep) for a non-empty pat. */
  function Replace(s: string, pat: string, rep: string): (r: string)
    requires |pat| > 0
    ensures !Contains(s, pat) ==> r == s
    decreases |s|
  {
    ReplaceFacts(s, pat, rep);
    if OccursAt(s, pat, 0) then rep + Replace(s[|pat|..], pat, rep)
    else if |s| == 0 then ""
    else [s[0]] + Replace(s[1..], pat, rep)
  }

  /** Replace with "" strictly shortens a string holding `pat`, and never lengthens one. */
  lemma {:induction false} ReplaceShortens(s: string, pat: string)
    requires |pat| > 0
    ensures |Replace(s, pat, "")| <= |s|
    ensures Contains(s, pat) ==> |Replace(s, pat, "")| < |s|
    decreases |s|
  {
    if OccursAt(s, pat, 0) {
      ReplaceShortens(s[|pat|..], pat);
    } else if |s| > 0 {
      ReplaceShortens(s[1..], pat);
      if Contains(s, pat) {
        var i: nat :| i <= |s| && OccursAt(s, pat, i);
        assert i > 0;
        assert s[1..][i - 1..i - 1 + |pat|] == s[i..i + |pat|];
        assert OccursAt(s[1..], pat, i - 1);
      }
    }
  }

  /** Replace on a string without any occurrence of `pat` is the identity (the base of Replace's contract). */
  lemma {:induction false} ReplaceFacts(s: string, pat: string, rep: string)
    requires |pat| > 0
    ensures !Contains(s, pat) && !OccursAt(s, pat, 0) && |s| > 0 ==> !Contains(s[1..], pat)
  {
    if !Contains(s, pat) && |s| > 0 {
      forall i: nat | i <= |s[1..]| && OccursAt(s[1..], pat, i) ensures false {
        assert s[i + 1..i + 1 + |pat|] == s[1..][i..i + |pat|];
        assert OccursAt(s, pat, i + 1);
      }
    }
  }

  /** Leading `c`s removed. */
  function TrimStart(s: string, c: char): (r: string)
    ensures |r| <= |s| && (|r| > 0 ==> r[0] != c)
    ensures r == s[|s| - |r|..]
  {
    if |s| > 0 && s[0] == c then TrimStart(s[1..], c) else s
  }

  /** Trailing `c`s removed. */
  function TrimEnd(s: string, c: char): (r: string)
    ensures |r| <= |s| && (|r| > 0 ==> r[|r| - 1] != c)
    ensures r == s[..|r|]
  {
    if |s| > 0 && s[|s| - 1] == c then TrimEnd(s[..|s| - 1], c) else s
  }

  /** String.Trim(c): both ends. */
  function Trim(s: string, c: char): (r: string)
    ensures |r| <= |s|
    ensures |r| > 0 ==> r[0] != c && r[|r| - 1] != c
  {
    var e := TrimEnd(s, c);
    var r := TrimStart(e, c);
    assert |r| > 0 ==> r[|r| - 1] == e[|e| - 1];
    r
  }

  /** The disabling rewrite: remove the symbol, collapse ";;" once, trim ';'. */
  function Disabled(defines: string, symbol: string): string
    requires symbol != ""
  {
    Trim(Replace(Replace(defines, symbol, ""), ";;", ";"), ';')
  }

  /**
   * The rewrite of one define string: append ";" + symbol when enabling a
   * symbol the string does not contain; remove it, collapse ";;" once and
   * trim ';' when disabling one it contains; otherwise leave it. The flag
   * says whether a rewrite happened; None where Replace throws (an empty
   * symbol to disable).
   */
  function ToggleOne(defines: string, symbol: string, enable: bool): (r: Option<(string, bool)>)
    ensures r.None? <==> !enable && symbol == ""
  {
    if enable && !Contains(defines, symbol) then Some((defines + ";" + symbol, true))
    else if !enable && Contains(defines, symbol) then
      if symbol == "" then None
      else Some((Disabled(defines, symbol), true))
    else
      assert !enable && symbol == "" ==> OccursAt(defines, symbol, 0);
      Some((defines, false))
  }

  /** Enabling a symbol the string lacks appends it after a ';', after which the string contains it. */
  lemma EnableAppends(defines: string, symbol: string)
    requires !Contains(defines, symbol)
    ensures ToggleOne(defines, symbol, true) == Some((defines + ";" + symbol, true))
    ensures Contains(defines + ";" + symbol, symbol)
  {
    var s := defines + ";" + symbol;
    assert s[|defines| + 1..] == symbol;
    assert OccursAt(s, symbol, |defines| + 1);
  }

  /** Disabling rewrites the string so that it neither starts nor ends with ';', and shortens it. */
  lemma DisableTrims(defines: string, symbol: string)
    requires symbol != "" && Contains(defines, symbol)
    ensures var r := ToggleOne(defines, symbol, false).value.0;
      |r| < |defines| && (|r| > 0 ==> r[0] != ';' && r[|r| - 1] != ';')
  {
    ReplaceShortens(defines, symbol);
    var a := Replace(defines, symbol, "");
    ReplaceShortens(a, ";;");
    assert |Replace(a, ";;", "")| <= |a|;
    ReplaceLength(a, ";;", ";");
  }

  /** Replacing ";;" by ";" never lengthens. */
  lemma {:induction false} ReplaceLength(s: string, pat: string, rep: string)
    requires |pat| > 0 && |rep| <= |pat|
    ensures |Replace(s, pat, rep)| <= |s|
    decreases |s|
  {
    if OccursAt(s, pat, 0) {
      ReplaceLength(s[|pat|..], pat, rep);
    } else if |s| > 0 {
      ReplaceLength(s[1..], pat, rep);
    }
  }

  /** The flag is set exactly when the string was rewritten to a different one. */
  lemma ToggleChangedIff(defines: string, symbol: string, enable: bool)
    requires ToggleOne(defines, symbol, enable).Some?
    ensures var (r, changed) := ToggleOne(defines, symbol, enable).value;
      changed <==> r != defines
  {
    if !enable && Contains(defines, symbol) {
      DisableTrims(defines, symbol);
    } else if enable && !Contains(defines, symbol) {
      assert |defines + ";" + symbol| > |defines|;
    }
  }

  /**
   * Enabling is by substring: a define list in which the symbol occurs
   * anywhere, even inside another symbol (such as MY_LOGA_ENABLE_PLAYER_LOGS),
   * is left as it is, so the symbol itself is never added.
   */
  lemma SubstringBlocksEnable(prefix: string, suffix: string, symbol: string)
    ensures ToggleOne(prefix + symbol + suffix, symbol, true) == Some((prefix + symbol + suffix, false))
  {
    var s := prefix + symbol + suffix;
    assert s[|prefix|..|prefix| + |symbol|] == symbol;
    assert OccursAt(s, symbol, |prefix|);
  }

  /** A well-formed define list: no ';' at either end and no empty entry. */
  predicate Clean(d: string)
  {
    && (|d| > 0 ==> d[0] != ';' && d[|d| - 1] != ';')
    && forall i :: 0 <= i < |d| - 1 ==> !(d[i] == ';' && d[i + 1] == ';')
  }

  /** Replace, past a prefix at none of whose positions `pat` starts, leaves that prefix. */
  lemma {:induction false} ReplaceSkips(x: string, y: string, pat: string, rep: string)
    requires |pat| > 0
    requires forall i :: 0 <= i < |x| ==> !OccursAt((x + y)[i..], pat, 0)
    ensures Replace(x + y, pat, rep) == x + Replace(y, pat, rep)
    decreases |x|
  {
    if |x| > 0 {
      var s := x + y;
      assert !OccursAt(s, pat, 0) by {
        assert s[0..] == s;
      }
      assert s[1..] == x[1..] + y;
      forall i | 0 <= i < |x[1..]| ensures !OccursAt((x[1..] + y)[i..], pat, 0) {
        assert (x[1..] + y)[i..] == s[i + 1..];
      }
      ReplaceSkips(x[1..], y, pat, rep);
      assert [s[0]] + (x[1..] + Replace(y, pat, rep)) == x + Replace(y, pat, rep);
    } else {
      assert x + y == y;
    }
  }

  /**
   * Round trip: on a clean define list without the symbol (a symbol with
   * no ';' in it), enabling and then disabling gives the list back.
   */
  lemma EnableDisableRoundTrip(d: string, symbol: string)
    requires Clean(d) && !Contains(d, symbol) && |symbol| > 0
    requires forall k :: 0 <= k < |symbol| ==> symbol[k] != ';'
    ensures var e := ToggleOne(d, symbol, true).value.0;
      ToggleOne(e, symbol, false) == Some((d, true))
  {
    EnableAppends(d, symbol);
    var e := d + ";" + symbol;
    var x := d + ";";
    RemoveAppended(d, symbol);
    assert Replace(e, symbol, "") == x;
    CollapseClean(d);
    assert TrimEnd(x, ';') == d by {
      assert x[..|x| - 1] == d;
    }
  }

  /** Removing the appended symbol takes off exactly it: no earlier position starts an occurrence. */
  lemma RemoveAppended(d: string, symbol: string)
    requires !Contains(d, symbol) && |symbol| > 0
    requires forall k :: 0 <= k < |symbol| ==> symbol[k] != ';'
    ensures Replace(d + ";" + symbol, symbol, "") == d + ";"
  {
    var x := d + ";";
    assert d + ";" + symbol == x + symbol;
    forall i | 0 <= i < |x| ensures !OccursAt((x + symbol)[i..], symbol, 0) {
      var t := (x + symbol)[i..];
      if i == |d| {
        assert t[0] == ';' && symbol[0] != ';';
      } else if i + |symbol| <= |d| {
        assert t[..|symbol|] == d[i..i + |symbol|];
        assert !OccursAt(d, symbol, i);
      } else {
        var k := |d| - i;
        assert t[k] == ';' && symbol[k] != ';';
        assert t[..|symbol|][k] == t[k];
      }
    }
    ReplaceSkips(x, symbol, symbol, "");
    assert Replace(symbol, symbol, "") == "" + Replace(symbol[|symbol|..], symbol, "") by {
      assert OccursAt(symbol, symbol, 0);
    }
  }

  /** A clean list followed by one ';' has no ";;" to collapse. */
  lemma CollapseClean(d: string)
    requires Clean(d)
    ensures Replace(d + ";", ";;", ";") == d + ";"
  {
    var x := d + ";";
    forall i | 0 <= i < |x| ensures !OccursAt((x + "")[i..], ";;", 0) {
      NoDoubleAt(d, i);
    }
    ReplaceSkips(x, "", ";;", ";");
    assert x + "" == x;
  }

  lemma NoDoubleAt(d: string, i: nat)
    requires Clean(d) && i < |d| + 1
    ensures !OccursAt((d + ";" + "")[i..], ";;", 0)
  {
    var t := (d + ";" + "")[i..];
    if i < |d| {
      assert t[0] == d[i];
      if i + 1 < |d| {
        assert t[1] == d[i + 1];
      } else {
        assert d[i] == d[|d| - 1];
      }
      assert !(t[0] == ';' && t[1] == ';');
    }
  }

  class LogaEditorPreferences {
    var prefsLoaded: bool
    var hideIconInHierarchy: bool
    var useLogs: bool
    /** LogaConstants.UseLogs. */
    var constantsUseLogs: bool
    /** The stored EditorPrefs values; None when a key was never set. */
    var prefUseLogs: Option<bool>
    var prefHideIcon: Option<bool>
    /** PlayerSettings' scripting define strings. */
    var definesAndroid: string
    var definesIOS: string

    /** LoadOnScript: read both preferences (false when unset) and mark them loaded. */
    method LoadOnScript()
      modifies this
      ensures prefsLoaded && useLogs == constantsUseLogs
      ensures hideIconInHierarchy == (prefHideIcon == Some(true)) && useLogs == (prefUseLogs == Some(true))
      ensures prefUseLogs == old(prefUseLogs) && prefHideIcon == old(prefHideIcon)
      ensures definesAndroid == old(definesAndroid) && definesIOS == old(definesIOS)
    {
      hideIconInHierarchy := if prefHideIcon.Some? then prefHideIcon.value else false;
      useLogs := if prefUseLogs.Some? then prefUseLogs.value else false;
      constantsUseLogs := useLogs;
      prefsLoaded := true;
    }

    /**
     * ToggleDefine: rewrite both define strings by the same rule, and
     * write them back only when one of them changed. Disabling an empty
     * symbol throws (an ArgumentException from Replace) before anything is
     * written.
     */
    method ToggleDefine(symbol: string, enable: bool) returns (r: Outcome<string>, written: bool)
      modifies this`definesAndroid, this`definesIOS
      ensures r.Fail? <==> !enable && symbol == ""
      ensures r.Fail? ==> !written && definesAndroid == old(definesAndroid) && definesIOS == old(definesIOS)
      ensures r.Pass? ==>
        && Some((definesAndroid, definesAndroid != old(definesAndroid))) == ToggleOne(old(definesAndroid), symbol, enable)
        && Some((definesIOS, definesIOS != old(definesIOS))) == ToggleOne(old(definesIOS), symbol, enable)
        && written == (definesAndroid != old(definesAndroid) || definesIOS != old(definesIOS))
    {
      var android := ToggleOne(definesAndroid, symbol, enable);
      var ios := ToggleOne(definesIOS, symbol, enable);
      if android.None? || ios.None? {
        return Fail("ArgumentException"), false;
      }
      ToggleChangedIff(definesAndroid, symbol, enable);
      ToggleChangedIff(definesIOS, symbol, enable);
      var changed := android.value.1 || ios.value.1;
      written := false;
      if changed {
        definesAndroid := android.value.0;
        definesIOS := ios.value.0;
        written := true;
      }
      r := Pass;
    }

    /**
     * The "Use Logs" part of PreferencesGUI: only a toggle value that
     * differs from the stored one updates the preference and the constant
     * and toggles the define.
     */
    method UseLogsToggled(newUseLogs: bool) returns (toggled: bool)
      modifies this
      ensures toggled <==> newUseLogs != old(useLogs)
      ensures useLogs == newUseLogs
      ensures prefsLoaded == old(prefsLoaded) && hideIconInHierarchy == old(hideIconInHierarchy) && prefHideIcon == old(prefHideIcon)
      ensures !toggled ==>
        && definesAndroid == old(definesAndroid) && definesIOS == old(definesIOS)
        && prefUseLogs == old(prefUseLogs) && constantsUseLogs == old(constantsUseLogs)
      ensures toggled ==>
        && prefUseLogs == Some(newUseLogs) && constantsUseLogs == newUseLogs
        && Some((definesAndroid, definesAndroid != old(definesAndroid))) == ToggleOne(old(definesAndroid), LogaDefine, newUseLogs)
        && Some((definesIOS, definesIOS != old(definesIOS))) == ToggleOne(old(definesIOS), LogaDefine, newUseLogs)
    {
      toggled := false;
      if newUseLogs != useLogs {
        useLogs := newUseLogs;
        constantsUseLogs := useLogs;
        prefUseLogs := Some(useLogs);
        var r, written := ToggleDefine(LogaDefine, useLogs);
        toggled := true;
      }
    }

    /**
     * PreferencesGUI's load guard and "Use Logs" toggle: preferences not
     * yet loaded are read first, so the new toggle value is compared with
     * the stored preference rather than the unloaded field.
     */
    method PreferencesGUI(newUseLogs: bool) returns (toggled: bool)
      modifies this
      ensures prefsLoaded
      ensures toggled <==> newUseLogs != (if old(prefsLoaded) then old(useLogs) else old(prefUseLogs) == Some(true))
      ensures useLogs == newUseLogs
      ensures hideIconInHierarchy == (if old(prefsLoaded) then old(hideIconInHierarchy) else old(prefHideIcon) == Some(true))
      ensures !toggled ==> definesAndroid == old(definesAndroid) && definesIOS == old(definesIOS)
      ensures toggled ==>
        && prefUseLogs == Some(newUseLogs) && constantsUseLogs == newUseLogs
        && Some((definesAndroid, definesAndroid != old(definesAndroid))) == ToggleOne(old(definesAndroid), LogaDefine, newUseLogs)
        && Some((definesIOS, definesIOS != old(definesIOS))) == ToggleOne(old(definesIOS), LogaDefine, newUseLogs)
    {
      if !prefsLoaded {
        LoadOnScript();
      }
      toggled := UseLogsToggled(newUseLogs);
    }
  }
}
