/** The text field and "Add Task" button below the task list: one `task` string that typing
    overwrites and that a press hands to `onAdd` when it is not blank after `trim()`. */
module TaskInput {
  import opened Wrappers

  /** The characters `String.prototype.trim` removes: the WhiteSpace and LineTerminator
      code points of ECMAScript (section 12.2 and 12.3 of ECMA-262, 14th edition). */
  predicate IsWhitespace(c: char)
  {
    c == '\t' || c == '\n' || c == '\U{000B}' || c == '\U{000C}' || c == '\r' || c == ' ' ||
    c == '\U{00A0}' || c == '\U{1680}' || ('\U{2000}' <= c <= '\U{200A}') ||
    c == '\U{2028}' || c == '\U{2029}' || c == '\U{202F}' || c == '\U{205F}' ||
    c == '\U{3000}' || c == '\U{FEFF}'
  }

  /** Every character of `s` is whitespace (the empty string included). */
  predicate IsBlank(s: string)
  {
    forall i :: 0 <= i < |s| ==> IsWhitespace(s[i])
  }

  /** `s` with its leading whitespace removed. */
  function TrimStart(s: string): string
  {
    if s != [] && IsWhitespace(s[0]) then TrimStart(s[1..]) else s
  }

  /** `s` with its trailing whitespace removed. */
  function TrimEnd(s: string): string
  {
    if s != [] && IsWhitespace(s[|s| - 1]) then TrimEnd(s[..|s| - 1]) else s
  }

  /** `s.trim()`. */
  function Trim(s: string): string
  {
    TrimEnd(TrimStart(s))
  }

  /** TrimStart drops a whitespace prefix and stops at the first other character. */
  lemma {:induction false} TrimStartSpec(s: string)
    ensures |TrimStart(s)| <= |s|
    ensures TrimStart(s) == s[|s| - |TrimStart(s)|..]
    ensures IsBlank(s[..|s| - |TrimStart(s)|])
    ensures TrimStart(s) == [] || !IsWhitespace(TrimStart(s)[0])
  {
    if s != [] && IsWhitespace(s[0]) {
      TrimStartSpec(s[1..]);
      var k := |s| - |TrimStart(s)|;
      assert s[..k] == [s[0]] + s[1..][..k - 1];
    }
  }

  /** TrimEnd drops a whitespace suffix and stops at the last other character. */
  lemma {:induction false} TrimEndSpec(s: string)
    ensures |TrimEnd(s)| <= |s|
    ensures TrimEnd(s) == s[..|TrimEnd(s)|]
    ensures IsBlank(s[|TrimEnd(s)|..])
    ensures TrimEnd(s) == [] || !IsWhitespace(TrimEnd(s)[|TrimEnd(s)| - 1])
  {
    if s != [] && IsWhitespace(s[|s| - 1]) {
      var u := s[..|s| - 1];
      TrimEndSpec(u);
      var k := |TrimEnd(s)|;
      assert s[k..] == u[k..] + [s[|s| - 1]];
    }
  }

  /** `trim` returns the middle of `s` between a whitespace prefix and a whitespace suffix,
      and the result neither starts nor ends with whitespace. */
  lemma TrimSpec(s: string) returns (i: nat, j: nat)
    ensures i <= j <= |s| && Trim(s) == s[i..j]
    ensures IsBlank(s[..i]) && IsBlank(s[j..])
    ensures Trim(s) == [] || (!IsWhitespace(Trim(s)[0]) && !IsWhitespace(Trim(s)[|Trim(s)| - 1]))
  {
    var u := TrimStart(s);
    TrimStartSpec(s);
    TrimEndSpec(u);
    i := |s| - |u|;
    j := i + |Trim(s)|;
    assert u[|Trim(s)|..] == s[j..];
  }

  /** The guard `if (task.trim())`: the trimmed text is empty exactly when the text is blank. */
  lemma TrimEmptyIffBlank(s: string)
    ensures Trim(s) == [] <==> IsBlank(s)
  {
    var i, j := TrimSpec(s);
    if Trim(s) == [] {
      forall k | 0 <= k < |s| ensures IsWhitespace(s[k]) {
        if k < i {
          assert s[k] == s[..i][k];
        } else {
          assert s[k] == s[j..][k - j];
        }
      }
    } else {
      assert s[i] == Trim(s)[0];
    }
  }

  /** Trimming twice is trimming once. */
  lemma TrimIdempotent(s: string)
    ensures Trim(Trim(s)) == Trim(s)
  {
    var r := Trim(s);
    var i, j := TrimSpec(s);
    if r != [] {
      assert TrimStart(r) == r;
      assert TrimEnd(r) == r;
    }
  }

  /** The `task` state of the input component. */
  class Field {
    var task: string

    /** `useState("")`: the field starts empty. */
    constructor ()
      ensures task == ""
    {
      task := "";
    }

    /** `onChangeText`: the field becomes exactly what was typed. */
    method OnChangeText(text: string)
      modifies this
      ensures task == text
    {
      task := text;
    }

    /** The button's `onPress`. The result is the argument of the one `onAdd` call, or None when
        `onAdd` is not called. A blank field is left alone; otherwise the untrimmed text is handed
        on and the field is cleared. */
    method OnPress() returns (added: Option<string>)
      modifies this
      ensures added == if IsBlank(old(task)) then None else Some(old(task))
      ensures task == if IsBlank(old(task)) then old(task) else ""
    {
      TrimEmptyIffBlank(task);
      if Trim(task) != "" {
        added := Some(task);
        task := "";
      } else {
        added := None;
      }
    }
  }

  /** A user types `text` and presses twice: the second press never calls `onAdd`. */
  method TypeAndPressTwice(text: string) returns (first: Option<string>, second: Option<string>)
    ensures first == if IsBlank(text) then None else Some(text)
    ensures second == None
  {
    var field := new Field();
    field.OnChangeText(text);
    first := field.OnPress();
    second := field.OnPress();
  }
}
