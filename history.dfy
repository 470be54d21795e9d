/**
 * The per-user conversation memory (main.py:13, 197-231): a process-wide
 * mapping from user id to the user's stored turns, appended to one turn at a
 * time and trimmed from the front in user/assistant pairs, wiped on RESET,
 * and projected, behind one system turn, into the prompt of a completion.
 */
module History {
  type UserId = int

  datatype Role = System | User | Assistant

  /** One `{"role": ..., "content": ...}` entry. */
  datatype Turn = Turn(role: Role, content: string)

  // ------------------------------------------------------------ trimming

  /**
   * The stored list after the trimming loop of main.py:209-216 has run on
   * `h`: while longer than `2 * maxHistory`, pop two from the front, or, when
   * fewer than two are left, pop one (or fail on the empty list) and stop.
   * The result is a suffix of `h`; with a non-negative bound it respects the
   * bound; with a positive bound an even number of turns is dropped, and no
   * more than needed; with a negative bound everything is dropped.
   */
  function Trim(h: seq<Turn>, maxHistory: int): (r: seq<Turn>)
    ensures |r| <= |h| && r == h[|h| - |r|..]
    ensures |h| <= 2 * maxHistory ==> r == h
    ensures maxHistory >= 0 ==> |r| <= 2 * maxHistory
    ensures maxHistory >= 1 ==> (|h| - |r|) % 2 == 0
    ensures maxHistory >= 1 && |h| > 2 * maxHistory ==> |r| >= 2 * maxHistory - 1
    ensures maxHistory < 0 ==> r == []
    decreases |h|
  {
    if |h| <= 2 * maxHistory then h
    else if |h| >= 2 then
      var r := Trim(h[2..], maxHistory);
      assert h[2..][|h| - 2 - |r|..] == h[|h| - |r|..];
      r
    else []
  }

  /**
   * Whether that loop reaches `pop(0)` on an empty list (Python's
   * IndexError): exactly when the bound is negative and the length even.
   */
  function TrimRaises(h: seq<Turn>, maxHistory: int): (b: bool)
    ensures b <==> maxHistory < 0 && |h| % 2 == 0
    decreases |h|
  {
    if |h| <= 2 * maxHistory then false
    else if |h| >= 2 then TrimRaises(h[2..], maxHistory)
    else |h| == 0
  }

  /** Turns alternate user, assistant, user, ... from the front. */
  ghost predicate Alternating(h: seq<Turn>) {
    forall i :: 0 <= i < |h| ==> h[i].role == (if i % 2 == 0 then User else Assistant)
  }

  /** Dropping an even-length prefix keeps the user/assistant alignment. */
  lemma EvenDropKeepsAlternation(h: seq<Turn>, k: nat)
    requires k <= |h| && k % 2 == 0 && Alternating(h)
    ensures Alternating(h[k..])
  {
    forall i | 0 <= i < |h[k..]|
      ensures h[k..][i].role == (if i % 2 == 0 then User else Assistant)
    {
      assert h[k..][i] == h[k + i];
    }
  }

  /** Every user's stored turns are whole user/assistant pairs within the bound. */
  ghost predicate WellPaired(entries: map<UserId, seq<Turn>>, maxHistory: int) {
    forall u :: u in entries ==>
      |entries[u]| % 2 == 0 && |entries[u]| <= 2 * maxHistory && Alternating(entries[u])
  }

  /** `message_history[user_id]` when present, else no turns. */
  function StoredIn(entries: map<UserId, seq<Turn>>, user: UserId): seq<Turn> {
    if user in entries then entries[user] else []
  }

  /** What a well-paired store yields for any user, stored or not. */
  lemma StoredWellPaired(entries: map<UserId, seq<Turn>>, maxHistory: int, user: UserId)
    requires maxHistory >= 0 && WellPaired(entries, maxHistory)
    ensures var h := StoredIn(entries, user);
      |h| % 2 == 0 && |h| <= 2 * maxHistory && Alternating(h)
  {
  }

  /** Storing whole pairs within the bound for one user keeps the store well paired. */
  lemma WellPairedUpdate(entries: map<UserId, seq<Turn>>, maxHistory: int, user: UserId, h: seq<Turn>)
    requires WellPaired(entries, maxHistory)
    requires |h| % 2 == 0 && |h| <= 2 * maxHistory && Alternating(h)
    ensures WellPaired(entries[user := h], maxHistory)
  {
    var e := entries[user := h];
    forall u | u in e
      ensures |e[u]| % 2 == 0 && |e[u]| <= 2 * maxHistory && Alternating(e[u])
    {
      if u != user {
        assert e[u] == entries[u];
      }
    }
  }

  /**
   * `update_message_history` as a function of the stored turns: append the
   * turn, then trim (main.py:202-216).
   */
  function Appended(stored: seq<Turn>, t: Turn, maxHistory: int): (r: seq<Turn>)
    ensures maxHistory >= 0 ==> |r| <= 2 * maxHistory
    ensures maxHistory >= 1 ==> r != [] && r[|r| - 1] == t
  {
    Trim(stored + [t], maxHistory)
  }

  // ---------------------------------------------------------- the prompt

  /**
   * The prompt of `get_formatted_message_history` (main.py:218-231): one
   * system turn with the persona text, then the stored turns in order.
   */
  function Prompt(systemPrompt: string, stored: seq<Turn>): (p: seq<Turn>)
    ensures |p| == 1 + |stored|
    ensures p[0] == Turn(System, systemPrompt)
    ensures forall i :: 0 <= i < |stored| ==> p[i + 1] == stored[i]
  {
    [Turn(System, systemPrompt)] + stored
  }

  // ----------------------------------------------------------- the store

  /** The module-level `message_history` dict together with its configuration. */
  class HistoryStore {
    var entries: map<UserId, seq<Turn>>
    /** `MAX_HISTORY`: retained user/assistant pairs, read from the environment. */
    const maxHistory: int
    /** `SYSTEM_PROMPT`: the persona text, opaque to this model. */
    const systemPrompt: string

    constructor (maxHistory: int, systemPrompt: string)
      ensures entries == map[]
      ensures this.maxHistory == maxHistory && this.systemPrompt == systemPrompt
    {
      entries := map[];
      this.maxHistory := maxHistory;
      this.systemPrompt := systemPrompt;
    }

    function Stored(user: UserId): seq<Turn>
      reads this
    {
      StoredIn(entries, user)
    }

    /**
     * `update_message_history` (main.py:197-216): creates the entry if
     * absent, appends the turn, trims in place; `raised` reports the
     * IndexError of `pop(0)` on an empty list, after which the list stays
     * empty. Other users' entries are untouched.
     */
    method Update(user: UserId, role: Role, content: string) returns (raised: bool)
      modifies this
      ensures entries == old(entries)[user := Trim(old(Stored(user)) + [Turn(role, content)], maxHistory)]
      ensures raised == TrimRaises(old(Stored(user)) + [Turn(role, content)], maxHistory)
    {
      if user !in entries {
        entries := entries[user := []];
      }
      entries := entries[user := entries[user] + [Turn(role, content)]];
      ghost var appended := entries[user];
      assert appended == old(Stored(user)) + [Turn(role, content)];
      raised := false;
      while |entries[user]| > maxHistory * 2
        invariant user in entries
        invariant entries == old(entries)[user := entries[user]]
        invariant Trim(entries[user], maxHistory) == Trim(appended, maxHistory)
        invariant TrimRaises(entries[user], maxHistory) == TrimRaises(appended, maxHistory)
        decreases |entries[user]|
      {
        if |entries[user]| >= 2 {
          entries := entries[user := entries[user][1..]];
          entries := entries[user := entries[user][1..]];
        } else {
          if entries[user] == [] {
            raised := true;
            break;
          }
          entries := entries[user := entries[user][1..]];
          assert entries[user] == [];
          break;
        }
      }
      assert entries[user] == Trim(appended, maxHistory);
    }

    /** The RESET branch (main.py:136-138): delete the entry if present. */
    method Reset(user: UserId)
      modifies this
      ensures entries == old(entries) - {user}
    {
      if user in entries {
        entries := entries - {user};
      }
    }

    /**
     * `get_formatted_message_history` (main.py:218-231): a fresh list holding
     * the system turn and a copy of each stored turn, in order; the store is
     * only read.
     */
    method FormattedHistory(user: UserId) returns (msgs: seq<Turn>)
      ensures |msgs| == 1 + |Stored(user)|
      ensures msgs[0] == Turn(System, systemPrompt)
      ensures msgs[1..] == Stored(user)
      ensures msgs == Prompt(systemPrompt, Stored(user))
    {
      msgs := [Turn(System, systemPrompt)];
      if user in entries {
        var stored := entries[user];
        var i := 0;
        while i < |stored|
          invariant 0 <= i <= |stored|
          invariant msgs == [Turn(System, systemPrompt)] + stored[..i]
        {
          msgs := msgs + [Turn(stored[i].role, stored[i].content)];
          i := i + 1;
        }
        assert stored[..i] == stored;
      }
    }
  }
}
