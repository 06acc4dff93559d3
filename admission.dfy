/** The pure checks of a connect request: the mode and room id formats and the
    per-(room, mode) capacity rule. */
module Admission {
  import opened Protocol

  /** Characters allowed in a room id: ASCII letters, digits, `_` and `-`. */
  predicate IsRoomIdChar(c: char) {
    ('a' <= c <= 'z') || ('A' <= c <= 'Z') || ('0' <= c <= '9') || c == '_' || c == '-'
  }

  /** The room id form `[a-zA-Z0-9_-]{4,32}`, matched against the whole string. */
  predicate IsRoomId(s: string) {
    4 <= |s| <= 32 && forall i :: 0 <= i < |s| ==> IsRoomIdChar(s[i])
  }

  /** What `re.match` with the anchored pattern accepts: Python's `$` also
      matches just before one final newline. */
  predicate RoomIdMatchesAsWritten(s: string) {
    IsRoomId(s) || (|s| > 0 && s[|s| - 1] == '\n' && IsRoomId(s[..|s| - 1]))
  }

  /** The pattern as written lets a room id with a trailing newline through. */
  lemma TrailingNewlineAccepted()
    ensures RoomIdMatchesAsWritten("room\n") && !IsRoomId("room\n")
  {
    var s := "room\n";
    assert s[..|s| - 1] == "room";
    assert !IsRoomIdChar(s[4]);
  }

  /** A whole-string match never admits a control character such as a newline. */
  lemma RoomIdHasNoNewline(s: string)
    requires IsRoomId(s)
    ensures '\n' !in s
  {
  }

  /** The room id check of a connect request: present and of the room id form. */
  predicate RoomIdParamValid(p: Option<string>) {
    p.Some? && p.value != "" && IsRoomId(p.value)
  }

  /** The decimal name of a mode, "1" for 1 and so on. */
  function ModeName(m: int): string
    requires 1 <= m <= 6
  {
    [('0' as int + m) as char]
  }

  /** The mode check of a connect request and the `int(mode)` that follows it:
      the mode is present and one of "1".."6", and its value is returned. */
  function ParseMode(p: Option<string>): (m: Option<int>)
    ensures m.Some? ==> 1 <= m.value <= 6 && p == Some(ModeName(m.value))
    ensures m.None? ==> forall k :: 1 <= k <= 6 ==> p != Some(ModeName(k))
  {
    if p.Some? && p.value in ["1", "2", "3", "4", "5", "6"] then
      Some(p.value[0] as int - '0' as int)
    else
      None
  }

  /** The mode check accepts the name of every mode and reads it back. */
  lemma ParseModeName(k: int)
    requires 1 <= k <= 6
    ensures ParseMode(Some(ModeName(k))) == Some(k)
  {
    var m := ParseMode(Some(ModeName(k)));
    assert m.Some?;
    assert ModeName(m.value)[0] == ModeName(k)[0];
  }

  /** Seats per (room, mode): 4 in modes 1, 2, 4 and 5, 2 in modes 3 and 6. */
  function Capacity(mode: int): nat
    requires 1 <= mode <= 6
  {
    if mode == 3 || mode == 6 then 2 else 4
  }

  /** The two capacity checks of a connect request, in their order: modes 1, 2,
      4, 5 are full at four members, modes 3 and 6 at two. */
  function RoomIsFull(mode: int, current: nat): (full: bool)
    requires 1 <= mode <= 6
    ensures full <==> current >= Capacity(mode)
  {
    (mode in {1, 2, 4, 5} && current >= 4) || (mode in {3, 6} && current >= 2)
  }
}
