/** The client chat screen (main-1.js, `ChatScreen`) as transitions on an
    explicit state record. The screen keeps the message list in memory and
    mirrors the whole list into the device's key-value store under
    `chatMessages`; sending appends the message optimistically and hands it
    to the socket, modelled here as an outbox of emitted events.

    The clock, the JSON codec and the outcome of every storage call are
    parameters: `Date.now()` / `new Date().toISOString()` become a `Clock`,
    `JSON.stringify` / `JSON.parse` a `Codec`, and a storage call that
    rejects is a `false` flag. */
module ChatScreen {
  import opened Common

  /** One chat message as the screen builds and stores it. `username` is
      `None` when the screen's username came from a missing store entry
      (`getItem` yields `null`). */
  datatype ChatMessage = ChatMessage(id: int, text: string, timestamp: string, isSent: bool, username: Option<string>)

  /** An event handed to the socket: its name and the message it carries. */
  datatype Event = Event(name: string, payload: ChatMessage)

  /** The JSON pair used for the stored snapshot. `decode` is `None` where
      `JSON.parse` throws. */
  datatype Codec = Codec(encode: seq<ChatMessage> -> string, decode: string -> Option<seq<ChatMessage>>)

  /** What the screen relies on from JSON: parsing a stringified list gives
      the list back, and a stringified list is never the empty string (the
      empty string would read as "nothing stored"). */
  ghost predicate RoundTrips(codec: Codec) {
    forall ms: seq<ChatMessage> ::
      codec.decode(codec.encode(ms)) == Some(ms) && codec.encode(ms) != ""
  }

  /** The readings of `Date.now()` and `new Date().toISOString()`. */
  datatype Clock = Clock(millis: int, iso: string)

  /** The screen that navigation shows. */
  datatype Route = Chat | Login

  type Store = map<string, string>

  const MessagesKey := "chatMessages"
  const TokenKey := "userToken"
  const UsernameKey := "username"

  /** The screen's state: its React state (`messages`, `inputText`,
      `username`), the device store, the current route, and the events
      emitted on the socket so far. */
  datatype Screen = Screen(messages: seq<ChatMessage>, inputText: string, username: Option<string>, store: Store,
                           route: Route, outbox: seq<Event>)

  /** The screen as first rendered over a given device store. */
  function Initial(store: Store): Screen {
    Screen([], "", Some(""), store, Chat, [])
  }

  /** `getItem`: the stored value, or `null` for a missing key. */
  function GetItem(store: Store, key: string): (r: Option<string>)
    ensures r.Some? <==> key in store
    ensures r.Some? ==> r.value == store[key]
  {
    if key in store then Some(store[key]) else None
  }

  /** JavaScript truthiness of a `getItem` result: `null` and `""` are falsy. */
  predicate Truthy(v: Option<string>) {
    v.Some? && v.value != ""
  }

  /** The characters `String.prototype.trim` removes: the ECMAScript
      WhiteSpace and LineTerminator code points. */
  predicate IsJsWhitespace(c: char) {
    || c == ' ' || c == '\t' || c == '\n' || c == '\U{000B}' || c == '\U{000C}' || c == '\r'
    || c == '\U{00A0}' || c == '\U{1680}' || ('\U{2000}' <= c <= '\U{200A}')
    || c == '\U{2028}' || c == '\U{2029}' || c == '\U{202F}' || c == '\U{205F}' || c == '\U{3000}'
    || c == '\U{FEFF}'
  }

  /** A string made of whitespace only (the empty string included). */
  predicate AllWhitespace(s: string) {
    forall i :: 0 <= i < |s| ==> IsJsWhitespace(s[i])
  }

  /** `s` with its leading whitespace removed: a suffix of `s`, empty
      exactly when `s` is all whitespace, and otherwise starting with a
      character that is not whitespace. */
  function TrimStart(s: string): (r: string)
    ensures |r| <= |s| && r == s[|s| - |r|..]
    ensures AllWhitespace(s[..|s| - |r|])
    ensures r == [] <==> AllWhitespace(s)
    ensures r == [] || !IsJsWhitespace(r[0])
    decreases |s|
  {
    if |s| > 0 && IsJsWhitespace(s[0]) then
      var r := TrimStart(s[1..]);
      assert s[..|s| - |r|] == [s[0]] + s[1..][..|s[1..]| - |r|];
      r
    else s
  }

  /** `s` with its trailing whitespace removed: a prefix of `s`, empty
      exactly when `s` is all whitespace, and otherwise ending with a
      character that is not whitespace. */
  function TrimEnd(s: string): (r: string)
    ensures |r| <= |s| && r == s[..|r|]
    ensures AllWhitespace(s[|r|..])
    ensures r == [] <==> AllWhitespace(s)
    ensures r == [] || !IsJsWhitespace(r[|r| - 1])
    decreases |s|
  {
    if |s| > 0 && IsJsWhitespace(s[|s| - 1]) then
      var r := TrimEnd(s[..|s| - 1]);
      assert s[|r|..] == s[..|s| - 1][|r|..] + [s[|s| - 1]];
      r
    else s
  }

  /** `String.prototype.trim`: `s` with its leading and trailing whitespace
      removed, so a slice of `s` between two whitespace-only runs; empty
      exactly for whitespace-only input, and otherwise neither starting nor
      ending with whitespace. */
  function Trim(s: string): (r: string)
    ensures exists i :: (0 <= i <= |s| - |r| && r == s[i..i + |r|]
      && AllWhitespace(s[..i]) && AllWhitespace(s[i + |r|..]))
    ensures r == [] <==> AllWhitespace(s)
    ensures r == [] || (!IsJsWhitespace(r[0]) && !IsJsWhitespace(r[|r| - 1]))
  {
    var t := TrimStart(s);
    var r := TrimEnd(t);
    assert r != [] ==> r[0] == t[0];
    SliceBetweenWhitespace(s, t, r);
    r
  }

  /** A prefix `r` of a suffix `t` of `s`, each cut off by whitespace only,
      is a slice of `s` between two whitespace-only runs. */
  lemma SliceBetweenWhitespace(s: string, t: string, r: string)
    requires |t| <= |s| && t == s[|s| - |t|..] && AllWhitespace(s[..|s| - |t|])
    requires |r| <= |t| && r == t[..|r|] && AllWhitespace(t[|r|..])
    ensures exists i :: (0 <= i <= |s| - |r| && r == s[i..i + |r|]
      && AllWhitespace(s[..i]) && AllWhitespace(s[i + |r|..]))
  {
    var i := |s| - |t|;
    assert r == s[i..i + |r|];
    assert s[i + |r|..] == t[|r|..];
  }

  /** `saveMessages`: writes the snapshot of `ms` under `chatMessages`; a
      rejected write is caught and logged, leaving the store as it was. */
  function SaveMessages(s: Screen, codec: Codec, ms: seq<ChatMessage>, writeOk: bool): (r: Screen)
    ensures r == s.(store := r.store)
    ensures forall k :: k != MessagesKey ==> GetItem(r.store, k) == GetItem(s.store, k)
    ensures writeOk ==> GetItem(r.store, MessagesKey) == Some(codec.encode(ms))
    ensures !writeOk ==> r == s
  {
    if writeOk then s.(store := s.store[MessagesKey := codec.encode(ms)]) else s
  }

  /** `loadMessages`: a truthy stored snapshot that parses replaces the
      message list; a failed read, a missing or empty entry, or a parse
      error (caught) leaves the screen as it was. Only the list changes. */
  function LoadMessages(s: Screen, codec: Codec, readOk: bool): (r: Screen)
    ensures r == s.(messages := r.messages)
    ensures (readOk && Truthy(GetItem(s.store, MessagesKey))
             && codec.decode(s.store[MessagesKey]).Some?) ==> r.messages == codec.decode(s.store[MessagesKey]).value
    ensures !readOk || !Truthy(GetItem(s.store, MessagesKey)) ==> r == s
    ensures readOk && Truthy(GetItem(s.store, MessagesKey)) && codec.decode(s.store[MessagesKey]).None? ==> r == s
  {
    var saved := GetItem(s.store, MessagesKey);
    if !readOk || !Truthy(saved) then s
    else
      match codec.decode(saved.value)
      case None => s
      case Some(ms) => s.(messages := ms)
  }

  /** `checkAuth`: with no token, or an empty one, the screen is replaced by
      the login screen and the username is left as it was; otherwise the
      username becomes the stored one (`null` when there is none). A read
      that rejects is not caught and the screen is left as it was. */
  function CheckAuth(s: Screen, readOk: bool): (r: Screen)
    ensures !readOk ==> r == s
    ensures readOk && !Truthy(GetItem(s.store, TokenKey)) ==> r == s.(route := Login)
    ensures readOk && Truthy(GetItem(s.store, TokenKey)) ==> r == s.(username := GetItem(s.store, UsernameKey))
    ensures r.messages == s.messages && r.store == s.store && r.outbox == s.outbox && r.inputText == s.inputText
  {
    if !readOk then s
    else
      var token := GetItem(s.store, TokenKey);
      var savedUsername := GetItem(s.store, UsernameKey);
      if !Truthy(token) then s.(route := Login) else s.(username := savedUsername)
  }

  /** `handleLogout`: removes `userToken`, then `username`, then goes to the
      login screen. The calls are awaited in turn and not caught, so a
      rejected removal stops the sequence where it fails. `chatMessages` is
      never touched. */
  function HandleLogout(s: Screen, tokenRemoved: bool, usernameRemoved: bool): (r: Screen)
    ensures GetItem(r.store, MessagesKey) == GetItem(s.store, MessagesKey)
    ensures r.messages == s.messages && r.username == s.username && r.outbox == s.outbox && r.inputText == s.inputText
    ensures tokenRemoved ==> TokenKey !in r.store
    ensures tokenRemoved && usernameRemoved ==> UsernameKey !in r.store && r.route == Login
    ensures tokenRemoved && !usernameRemoved ==> r.store == s.store - {TokenKey}
    ensures forall k :: k != TokenKey && k != UsernameKey ==> GetItem(r.store, k) == GetItem(s.store, k)
    ensures !tokenRemoved ==> r == s
    ensures !(tokenRemoved && usernameRemoved) ==> r.route == s.route
  {
    if !tokenRemoved then s
    else
      var s1 := s.(store := s.store - {TokenKey});
      if !usernameRemoved then s1
      else s1.(store := s1.store - {UsernameKey}, route := Login)
  }

  /** The message `sendMessage` builds from the raw input. */
  function NewMessage(s: Screen, clock: Clock): ChatMessage {
    ChatMessage(clock.millis, s.inputText, clock.iso, true, s.username)
  }

  /** `sendMessage`: whitespace-only input does nothing. Otherwise one
      message carrying the raw (untrimmed) input is appended to the list, the
      new list is saved, the message is emitted as a `message` event, and the
      input is cleared. The route and username are untouched. */
  function SendMessage(s: Screen, codec: Codec, clock: Clock, writeOk: bool): (r: Screen)
    ensures r == s <==> AllWhitespace(s.inputText)
    ensures !AllWhitespace(s.inputText) ==>
      && |r.messages| == |s.messages| + 1
      && r.messages[..|s.messages|] == s.messages
      && r.messages[|s.messages|] == ChatMessage(clock.millis, s.inputText, clock.iso, true, s.username)
      && r.outbox == s.outbox + [Event("message", r.messages[|s.messages|])]
      && r.inputText == ""
      && r.username == s.username && r.route == s.route
      && (forall k :: k != MessagesKey ==> GetItem(r.store, k) == GetItem(s.store, k))
      && (writeOk ==> GetItem(r.store, MessagesKey) == Some(codec.encode(r.messages)))
      && (!writeOk ==> r.store == s.store)
  {
    if Trim(s.inputText) == "" then s
    else
      var m := NewMessage(s, clock);
      var updated := s.messages + [m];
      var saved := SaveMessages(s.(messages := updated), codec, updated, writeOk);
      assert |saved.messages| != |s.messages|;
      saved.(outbox := s.outbox + [Event("message", m)], inputText := "")
  }

  /** Loading what was just saved gives back the saved list. */
  lemma SaveThenLoad(s: Screen, codec: Codec, ms: seq<ChatMessage>)
    requires RoundTrips(codec)
    ensures LoadMessages(SaveMessages(s, codec, ms, true), codec, true).messages == ms
  {
  }

  /** A message sent while the store accepts writes is still there when the
      screen is mounted afresh over the same store: loading on the next
      start shows exactly the list the screen held. */
  lemma SendSurvivesRestart(s: Screen, codec: Codec, clock: Clock)
    requires RoundTrips(codec)
    requires !AllWhitespace(s.inputText)
    ensures var r := SendMessage(s, codec, clock, true);
      LoadMessages(Initial(r.store), codec, true).messages == r.messages
  {
  }

  /** The two reads started on mount, `loadMessages` and `checkAuth`, touch
      disjoint parts of the screen, so the order in which they finish does
      not matter. */
  lemma MountReadsCommute(s: Screen, codec: Codec, loadOk: bool, authOk: bool)
    ensures LoadMessages(CheckAuth(s, authOk), codec, loadOk) == CheckAuth(LoadMessages(s, codec, loadOk), authOk)
  {
  }

  /** After a complete logout, the authentication check sends the user to
      the login screen, and the message history is still stored. */
  lemma LogoutThenCheckAuth(s: Screen)
    ensures var r := CheckAuth(HandleLogout(s, true, true), true);
      r.route == Login && r.username == s.username && GetItem(r.store, MessagesKey) == GetItem(s.store, MessagesKey)
  {
  }
}
