/** The simulator's on-screen debug log: at most five messages, each cleaned
    of NUL characters and cut to at most 100 characters. */
module RoverLog {
  import opened Util

  const MAX_LOG_ENTRIES: nat := 5
  const MAX_MESSAGE_LEN: nat := 100
  const ELLIPSIS: string := "..."

  /** The message as stored: NUL characters removed, and a message longer
      than 100 characters replaced by its first 97 characters and "...". */
  function Sanitize(message: string): (r: string)
    ensures '\0' !in r
    ensures |r| <= MAX_MESSAGE_LEN
    ensures |RemoveAll(message, '\0')| <= MAX_MESSAGE_LEN ==> r == RemoveAll(message, '\0')
    ensures |RemoveAll(message, '\0')| > MAX_MESSAGE_LEN ==>
      && |r| == MAX_MESSAGE_LEN
      && r[..97] == RemoveAll(message, '\0')[..97]
      && r[97..] == ELLIPSIS
  {
    var clean := RemoveAll(message, '\0');
    if |clean| > MAX_MESSAGE_LEN then clean[..97] + ELLIPSIS else clean
  }

  /** The newest `n` elements of `xs` (all of them when there are fewer). */
  function Newest<T>(xs: seq<T>, n: nat): (r: seq<T>)
    ensures |r| == if |xs| < n then |xs| else n
    ensures r == xs[|xs| - |r|..]
  {
    if |xs| <= n then xs else xs[|xs| - n..]
  }

  /** Appends `entry` and drops the oldest entry once there are more than
      five. */
  function Push<T>(log: seq<T>, entry: T): (r: seq<T>)
    ensures |r| >= 1 && r[|r| - 1] == entry
    ensures |log| <= MAX_LOG_ENTRIES ==> r == Newest(log + [entry], MAX_LOG_ENTRIES)
    ensures |log| < MAX_LOG_ENTRIES ==> r == log + [entry]
  {
    var appended := log + [entry];
    if |appended| > MAX_LOG_ENTRIES then appended[1..] else appended
  }

  /** `add_to_message_log`: the sanitized message pushed onto the log. */
  function AddToLog(log: seq<string>, message: string): (r: seq<string>)
    ensures |r| >= 1 && r[|r| - 1] == Sanitize(message)
    ensures |log| <= MAX_LOG_ENTRIES ==> r == Newest(log + [Sanitize(message)], MAX_LOG_ENTRIES)
    ensures |log| < MAX_LOG_ENTRIES ==> r == log + [Sanitize(message)]
  {
    Push(log, Sanitize(message))
  }

  /** The log after a sequence of messages, oldest first. */
  function LogAll(log: seq<string>, messages: seq<string>): seq<string>
    decreases |messages|
  {
    if |messages| == 0 then log
    else LogAll(AddToLog(log, messages[0]), messages[1..])
  }

  function PushAll<T>(log: seq<T>, entries: seq<T>): seq<T>
    decreases |entries|
  {
    if |entries| == 0 then log
    else PushAll(Push(log, entries[0]), entries[1..])
  }

  function SanitizeAll(messages: seq<string>): (r: seq<string>)
    ensures |r| == |messages|
    ensures forall i | 0 <= i < |r| :: r[i] == Sanitize(messages[i])
  {
    seq(|messages|, i requires 0 <= i < |messages| => Sanitize(messages[i]))
  }

  /** Pushing entries onto a log of at most five keeps the five newest of the
      old log followed by the entries. */
  lemma {:induction false} PushAllKeepsNewest<T>(log: seq<T>, entries: seq<T>)
    requires |log| <= MAX_LOG_ENTRIES
    ensures PushAll(log, entries) == Newest(log + entries, MAX_LOG_ENTRIES)
    decreases |entries|
  {
    if |entries| > 0 {
      var first := log + [entries[0]];
      var tail := entries[1..];
      var pushed := Push(log, entries[0]);
      assert pushed == Newest(first, MAX_LOG_ENTRIES);
      PushAllKeepsNewest(pushed, tail);
      NewestOfNewest(first, tail);
      AppendFirst(log, entries);
    }
  }

  /** Logging two batches in turn is logging them as one. */
  lemma LogAllAppend(log: seq<string>, a: seq<string>, b: seq<string>)
    ensures LogAll(log, a + b) == LogAll(LogAll(log, a), b)
  {
    LogAllIsPushAll(log, a + b);
    LogAllIsPushAll(log, a);
    LogAllIsPushAll(LogAll(log, a), b);
    SanitizeAllAppend(a, b);
    PushAllAppend(log, SanitizeAll(a), SanitizeAll(b));
  }

  lemma {:induction false} PushAllAppend<T>(log: seq<T>, a: seq<T>, b: seq<T>)
    ensures PushAll(log, a + b) == PushAll(PushAll(log, a), b)
    decreases |a|
  {
    var ab := a + b;
    if |a| == 0 {
      assert ab == b;
    } else {
      assert ab[0] == a[0];
      assert ab[1..] == a[1..] + b;
      assert PushAll(log, ab) == PushAll(Push(log, a[0]), ab[1..]);
      PushAllAppend(Push(log, a[0]), a[1..], b);
    }
  }

  /** While the log has room, nothing is dropped: the messages are simply
      appended, sanitized. */
  lemma LogAllShort(log: seq<string>, messages: seq<string>)
    requires |log| + |messages| <= MAX_LOG_ENTRIES
    ensures LogAll(log, messages) == log + SanitizeAll(messages)
  {
    LogAllKeepsNewest(log, messages);
  }

  lemma SanitizeAllAppend(a: seq<string>, b: seq<string>)
    ensures SanitizeAll(a + b) == SanitizeAll(a) + SanitizeAll(b)
  {
    var l := SanitizeAll(a + b);
    var r := SanitizeAll(a) + SanitizeAll(b);
    forall i | 0 <= i < |l| ensures l[i] == r[i] {
      if i < |a| { assert (a + b)[i] == a[i]; } else { assert (a + b)[i] == b[i - |a|]; }
    }
  }

  /** Logging messages one by one is pushing their sanitized forms. */
  lemma {:induction false} LogAllIsPushAll(log: seq<string>, messages: seq<string>)
    ensures LogAll(log, messages) == PushAll(log, SanitizeAll(messages))
    decreases |messages|
  {
    if |messages| > 0 {
      LogAllIsPushAll(AddToLog(log, messages[0]), messages[1..]);
      SanitizeAllCons(messages);
    }
  }

  /** Starting from any log of at most five entries, the log afterwards is the
      five newest of the old entries followed by the new messages, sanitized. */
  lemma LogAllKeepsNewest(log: seq<string>, messages: seq<string>)
    requires |log| <= MAX_LOG_ENTRIES
    ensures LogAll(log, messages) == Newest(log + SanitizeAll(messages), MAX_LOG_ENTRIES)
  {
    LogAllIsPushAll(log, messages);
    PushAllKeepsNewest(log, SanitizeAll(messages));
  }

  lemma SanitizeAllPrepend(message: string, messages: seq<string>)
    ensures SanitizeAll([message] + messages) == [Sanitize(message)] + SanitizeAll(messages)
  {
    SanitizeAllCons([message] + messages);
    assert ([message] + messages)[1..] == messages;
  }

  lemma SanitizeAllCons(messages: seq<string>)
    requires |messages| > 0
    ensures SanitizeAll(messages) == [Sanitize(messages[0])] + SanitizeAll(messages[1..])
  {
    var a := SanitizeAll(messages);
    var b := [Sanitize(messages[0])] + SanitizeAll(messages[1..]);
    assert |a| == |b|;
    forall i | 0 <= i < |a| ensures a[i] == b[i] {
      if i > 0 { assert b[i] == SanitizeAll(messages[1..])[i - 1]; }
    }
  }

  lemma AppendFirst<T>(log: seq<T>, entries: seq<T>)
    requires |entries| > 0
    ensures log + entries == (log + [entries[0]]) + entries[1..]
  {
    assert entries == [entries[0]] + entries[1..];
  }

  lemma NewestOfNewest<T>(xs: seq<T>, ys: seq<T>)
    ensures Newest(Newest(xs, MAX_LOG_ENTRIES) + ys, MAX_LOG_ENTRIES) == Newest(xs + ys, MAX_LOG_ENTRIES)
  {
    var n := MAX_LOG_ENTRIES;
    if |xs| > n {
      var p := xs[..|xs| - n];
      var ws := xs[|xs| - n..] + ys;
      assert xs + ys == p + ws;
      NewestOfSuffix(p, ws, n);
    }
  }

  lemma NewestOfSuffix<T>(p: seq<T>, ws: seq<T>, n: nat)
    requires |ws| >= n
    ensures Newest(p + ws, n) == Newest(ws, n)
  {
    var zs := p + ws;
    assert zs[|zs| - n..] == ws[|ws| - n..];
  }

  /** From the empty log, the log holds exactly the five newest messages,
      sanitized, in arrival order. */
  lemma LogFromEmpty(messages: seq<string>)
    ensures LogAll([], messages) == Newest(SanitizeAll(messages), MAX_LOG_ENTRIES)
    ensures |LogAll([], messages)| == if |messages| < MAX_LOG_ENTRIES then |messages| else MAX_LOG_ENTRIES
  {
    LogAllKeepsNewest([], messages);
    assert [] + SanitizeAll(messages) == SanitizeAll(messages);
  }
}
