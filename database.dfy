/**
 * The progress store behind the bot: one record per Telegram user, keyed by
 * the Telegram id, and the exercise-history table. The SQL engine is replaced
 * by a map and a sequence; a date is a day number and "today" is a parameter.
 */
module Database {
  import opened Wrappers
  import LearningEngine

  /**
   * The `last_exercise_date` column: NULL or empty, a text that is not an ISO
   * date, or a day number.
   */
  datatype StoredDate = Absent | Unparsable | Day(n: int)

  /** A row of the `users` table (without the `last_active` and `created_at` timestamps). */
  datatype UserRecord = UserRecord(
    id: nat,
    telegramId: int,
    username: Option<string>,
    level: string,
    goal: string,
    totalExercises: nat,
    correctAnswers: nat,
    accuracy: real,
    weakTopics: seq<string>,
    vocabularySize: nat,
    streakDays: nat,
    lastExerciseDate: StoredDate)

  /** A row of the `exercise_history` table; `isCorrect` is stored as the integer 1 or 0. */
  datatype HistoryRow = HistoryRow(
    userId: nat,
    exerciseType: string,
    topic: string,
    question: string,
    userAnswer: string,
    correctAnswer: string,
    isCorrect: int,
    difficulty: real,
    timeSpent: int)

  /** What `get_user_stats` reports apart from the two averages over the history. */
  datatype Stats = Stats(
    level: string,
    accuracy: real,
    totalExercises: nat,
    correctAnswers: nat,
    weakTopics: seq<string>,
    streakDays: nat)

  /** How many weak topics a record keeps. */
  const WeakTopicWindow: nat := 5

  // ---------------------------------------------------------------------------
  // Streak
  // ---------------------------------------------------------------------------

  /**
   * `_streak_update`: the action (0 keep, 1 increment, -1 reset) and the date
   * to store, which is always today.
   */
  function StreakUpdate(last: StoredDate, today: int): (r: (int, int))
    ensures r.1 == today
    ensures r.0 == 0 <==> last == Day(today)
    ensures r.0 == 1 <==> last == Absent || last == Unparsable || last == Day(today - 1)
    ensures r.0 == -1 <==> last.Day? && last.n != today && last.n != today - 1
  {
    match last
    case Absent => (1, today)
    case Unparsable => (1, today)
    case Day(d) =>
      if d == today then (0, today)
      else if d == today - 1 then (1, today)
      else (-1, today)
  }

  /** The streak `record_exercise` stores, from the old streak, the stored date and today. */
  function NewStreak(streak: nat, last: StoredDate, today: int): (n: nat)
    ensures last == Day(today) ==> n == streak
    ensures last == Day(today - 1) ==> n == streak + 1
    ensures last == Unparsable ==> n == streak + 1
    ensures last == Absent ==> n == 1
    ensures last.Day? && last.n != today && last.n != today - 1 ==> n == 1
  {
    var (action, _) := StreakUpdate(last, today);
    if action == 0 then streak
    else if action == 1 then (if last != Absent then streak + 1 else 1)
    else 1
  }

  /** A recorded exercise moves the streak by at most one and never leaves it at zero unless it was zero on the same day. */
  lemma StreakStep(streak: nat, last: StoredDate, today: int)
    ensures NewStreak(streak, last, today) <= streak + 1
    ensures NewStreak(streak, last, today) >= 1 || (last == Day(today) && streak == 0)
  {
  }

  /** The streak after one recorded exercise on each day of `days`, in order. */
  function StreakAfter(streak: nat, last: StoredDate, days: seq<int>): nat
    decreases |days|
  {
    if days == [] then streak
    else StreakAfter(NewStreak(streak, last, days[0]), Day(days[0]), days[1..])
  }

  /** Exercise days without a gap: each day is the previous one or the one after it. */
  predicate NoGaps(days: seq<int>)
  {
    forall i :: 0 <= i < |days| - 1 ==> days[i] <= days[i + 1] <= days[i] + 1
  }

  /**
   * Practising every day from the day after the stored date adds the number of
   * distinct days to the streak, however many exercises fall on each day.
   */
  lemma {:induction false} StreakCountsDays(streak: nat, days: seq<int>)
    requires days != [] && NoGaps(days)
    ensures StreakAfter(streak, Day(days[0] - 1), days) == streak + (days[|days| - 1] - days[0] + 1)
    decreases |days|
  {
    var s := NewStreak(streak, Day(days[0] - 1), days[0]);
    assert s == streak + 1;
    if |days| > 1 {
      var rest := days[1..];
      assert NoGaps(rest) by {
        forall i | 0 <= i < |rest| - 1
          ensures rest[i] <= rest[i + 1] <= rest[i] + 1
        {
          assert rest[i] == days[i + 1] && rest[i + 1] == days[i + 2];
        }
      }
      if days[1] == days[0] {
        StreakCountsDaysFrom(s, days[0], rest);
      } else {
        assert days[1] - 1 == days[0];
        StreakCountsDays(s, rest);
      }
    }
  }

  /** `StreakCountsDays` restated for a stored date equal to the first day, used by its same-day step. */
  lemma {:induction false} StreakCountsDaysFrom(streak: nat, d: int, days: seq<int>)
    requires days != [] && NoGaps(days) && days[0] == d
    ensures StreakAfter(streak, Day(d), days) == streak + (days[|days| - 1] - d)
    decreases |days|
  {
    var s := NewStreak(streak, Day(d), days[0]);
    assert s == streak;
    var rest := days[1..];
    if rest != [] {
      assert NoGaps(rest) by {
        forall i | 0 <= i < |rest| - 1
          ensures rest[i] <= rest[i + 1] <= rest[i] + 1
        {
          assert rest[i] == days[i + 1] && rest[i + 1] == days[i + 2];
        }
      }
      if rest[0] == d {
        StreakCountsDaysFrom(s, d, rest);
      } else {
        assert rest[0] - 1 == d;
        StreakCountsDays(s, rest);
      }
    }
  }

  /** A user who never practised and then practises with no gap has a streak equal to the number of days. */
  lemma FirstStreak(days: seq<int>)
    requires days != [] && NoGaps(days)
    ensures StreakAfter(0, Absent, days) == days[|days| - 1] - days[0] + 1
  {
    assert NewStreak(0, Absent, days[0]) == 1;
    var rest := days[1..];
    if rest != [] {
      assert NoGaps(rest) by {
        forall i | 0 <= i < |rest| - 1
          ensures rest[i] <= rest[i + 1] <= rest[i] + 1
        {
          assert rest[i] == days[i + 1] && rest[i + 1] == days[i + 2];
        }
      }
      if rest[0] == days[0] {
        StreakCountsDaysFrom(1, days[0], rest);
      } else {
        StreakCountsDays(1, rest);
      }
    }
  }

  // ---------------------------------------------------------------------------
  // Weak topics
  // ---------------------------------------------------------------------------

  predicate NoDuplicates<T(==)>(s: seq<T>)
  {
    forall i, j :: 0 <= i < j < |s| ==> s[i] != s[j]
  }

  /** Python's `s[-n:]`: the last `n` entries, or all of them when there are fewer. */
  function LastN<T>(s: seq<T>, n: nat): (r: seq<T>)
    ensures |r| == if |s| <= n then |s| else n
    ensures r == s[|s| - |r|..]
  {
    if |s| <= n then s else s[|s| - n..]
  }

  /** The weak-topic list after an answer on `topic`. */
  function WeakTopicsAfter(weakTopics: seq<string>, topic: string, isCorrect: bool): (r: seq<string>)
    ensures isCorrect || topic == "" || topic in weakTopics ==> r == weakTopics
    ensures !isCorrect && topic != "" && topic !in weakTopics ==>
              |r| == (if |weakTopics| < WeakTopicWindow then |weakTopics| + 1 else WeakTopicWindow)
              && r[|r| - 1] == topic
              && r[..|r| - 1] == weakTopics[|weakTopics| + 1 - |r|..]
  {
    if !isCorrect && topic != "" && topic !in weakTopics then LastN(weakTopics + [topic], WeakTopicWindow)
    else weakTopics
  }

  /** The list stays free of duplicates and empty names and never grows past the window. */
  lemma WeakTopicsStayValid(weakTopics: seq<string>, topic: string, isCorrect: bool)
    requires NoDuplicates(weakTopics) && |weakTopics| <= WeakTopicWindow
    requires forall k :: 0 <= k < |weakTopics| ==> weakTopics[k] != ""
    ensures var r := WeakTopicsAfter(weakTopics, topic, isCorrect);
            NoDuplicates(r) && |r| <= WeakTopicWindow && forall k :: 0 <= k < |r| ==> r[k] != ""
  {
    if !isCorrect && topic != "" && topic !in weakTopics {
      var s := weakTopics + [topic];
      assert NoDuplicates(s) by {
        forall i, j | 0 <= i < j < |s|
          ensures s[i] != s[j]
        {
          assert s[i] == weakTopics[i];
          if j < |weakTopics| {
            assert s[j] == weakTopics[j];
          }
        }
      }
      var r := LastN(s, WeakTopicWindow);
      var k := |s| - |r|;
      SuffixNoDuplicates(s, k);
      forall m | 0 <= m < |r|
        ensures r[m] != ""
      {
        assert r[m] == s[k + m];
      }
    }
  }

  lemma SuffixNoDuplicates<T>(s: seq<T>, k: nat)
    requires NoDuplicates(s) && k <= |s|
    ensures NoDuplicates(s[k..])
  {
    forall i, j | 0 <= i < j < |s[k..]|
      ensures s[k..][i] != s[k..][j]
    {
      assert s[k..][i] == s[k + i] && s[k..][j] == s[k + j];
    }
  }

  /** The weak-topic list after missing each of `topics` in turn. */
  function MissAll(weakTopics: seq<string>, topics: seq<string>): seq<string>
    decreases |topics|
  {
    if topics == [] then weakTopics
    else MissAll(WeakTopicsAfter(weakTopics, topics[0], false), topics[1..])
  }

  /** Cutting to the last `n` before appending does not change the last `n` after appending. */
  lemma LastNAbsorbs<T>(x: seq<T>, y: seq<T>, n: nat)
    ensures LastN(LastN(x, n) + y, n) == LastN(x + y, n)
  {
    if |x| > n {
      var k := |x| - n;
      var xy := x + y;
      var tail := LastN(x, n);
      assert tail == x[k..];
      DropThenAppend(x, y, k);
      assert tail + y == xy[k..];
      LastNOfSuffix(xy, k, n);
    }
  }

  /** Dropping a prefix of `x` commutes with appending `y`. */
  lemma DropThenAppend<T>(x: seq<T>, y: seq<T>, k: nat)
    requires k <= |x|
    ensures x[k..] + y == (x + y)[k..]
  {
  }

  /** Dropping a prefix that leaves at least `n` elements keeps the last `n`. */
  lemma LastNOfSuffix<T>(s: seq<T>, k: nat, n: nat)
    requires k + n <= |s|
    ensures LastN(s[k..], n) == LastN(s, n)
  {
    assert s[k..][|s| - k - n..] == s[|s| - n..];
  }

  /** Missing distinct, named topics none of which is listed yet keeps exactly the five most recent of all of them. */
  lemma {:induction false} DistinctMisses(weakTopics: seq<string>, topics: seq<string>)
    requires NoDuplicates(weakTopics + topics) && |weakTopics| <= WeakTopicWindow
    requires forall k :: 0 <= k < |topics| ==> topics[k] != ""
    ensures MissAll(weakTopics, topics) == LastN(weakTopics + topics, WeakTopicWindow)
    decreases |topics|
  {
    if topics == [] {
      assert weakTopics + topics == weakTopics;
    } else {
      var t := topics[0];
      var rest := topics[1..];
      var all := weakTopics + topics;
      assert t == all[|weakTopics|];
      assert t !in weakTopics by {
        forall i | 0 <= i < |weakTopics|
          ensures weakTopics[i] != t
        {
          assert weakTopics[i] == all[i];
        }
      }
      var w := LastN(weakTopics + [t], WeakTopicWindow);
      assert WeakTopicsAfter(weakTopics, t, false) == w;
      var prefix := weakTopics + [t];
      assert all == prefix + rest;
      var k := |prefix| - |w|;
      assert w + rest == all[k..];
      SuffixNoDuplicates(all, k);
      assert forall j :: 0 <= j < |rest| ==> rest[j] == topics[j + 1];
      DistinctMisses(w, rest);
      LastNAbsorbs(prefix, rest, WeakTopicWindow);
    }
  }

  /** Six different topics missed in a row, starting from an empty list, leave the last five of them. */
  lemma SixDistinctMisses(topics: seq<string>)
    requires |topics| == 6 && NoDuplicates(topics)
    requires forall k :: 0 <= k < |topics| ==> topics[k] != ""
    ensures MissAll([], topics) == topics[1..]
  {
    assert [] + topics == topics;
    DistinctMisses([], topics);
  }

  // ---------------------------------------------------------------------------
  // Records
  // ---------------------------------------------------------------------------

  /**
   * What the columns of a stored record always satisfy: the counters agree,
   * accuracy is their quotient, the weak topics form a short list of distinct
   * names, and a stored day comes with a streak of at least one.
   */
  predicate ValidRecord(u: UserRecord)
  {
    && u.correctAnswers <= u.totalExercises
    && u.accuracy == (if u.totalExercises == 0 then 0.0 else u.correctAnswers as real / u.totalExercises as real)
    && NoDuplicates(u.weakTopics) && |u.weakTopics| <= WeakTopicWindow
    && (forall k :: 0 <= k < |u.weakTopics| ==> u.weakTopics[k] != "")
    && (u.lastExerciseDate.Day? ==> u.streakDays >= 1)
  }

  /**
   * The row `get_or_create_user` inserts: the given ids and name, every other
   * column at its declared default. It is a valid record, and its stored level
   * is the one the engine assigns to a user with no exercises.
   */
  function NewUser(id: nat, telegramId: int, username: Option<string>): (r: UserRecord)
    ensures r.id == id && r.telegramId == telegramId && r.username == username
    ensures ValidRecord(r)
    ensures r.level == LearningEngine.GetUserLevel(0.0, 0).Name() && r.goal == "general"
    ensures r.totalExercises == 0 && r.correctAnswers == 0 && r.vocabularySize == 0
    ensures r.streakDays == 0 && r.weakTopics == [] && r.lastExerciseDate == Absent
  {
    UserRecord(id, telegramId, username, "beginner", "general", 0, 0, 0.0, [], 0, 0, Absent)
  }

  /**
   * The record `get_or_create_user` leaves under `telegramId`. A known user
   * keeps every column but the name, which changes only when a new one is
   * given (SQL `COALESCE`); an unknown user gets a new record with the next id.
   */
  function FetchOrCreate(users: map<int, UserRecord>, nextId: nat, telegramId: int, username: Option<string>): (u: UserRecord)
    ensures telegramId in users ==> u.(username := users[telegramId].username) == users[telegramId]
    ensures telegramId in users && username.None? ==> u == users[telegramId]
    ensures username.Some? ==> u.username == username
    ensures telegramId !in users ==> u == NewUser(nextId, telegramId, username)
  {
    if telegramId in users then
      var u := users[telegramId];
      u.(username := if username.Some? then username else u.username)
    else NewUser(nextId, telegramId, username)
  }

  /** `new_level` counts only when it is given and non-empty. */
  predicate Truthy(s: Option<string>)
  {
    s.Some? && s.value != ""
  }

  /** The record as `record_exercise` writes it back. */
  function Recorded(u: UserRecord, topic: string, isCorrect: bool, newLevel: Option<string>, today: int): UserRecord
  {
    var total := u.totalExercises + 1;
    var correct := u.correctAnswers + (if isCorrect then 1 else 0);
    u.(totalExercises := total,
       correctAnswers := correct,
       accuracy := correct as real / total as real,
       weakTopics := WeakTopicsAfter(u.weakTopics, topic, isCorrect),
       level := if Truthy(newLevel) then newLevel.value else u.level,
       streakDays := NewStreak(u.streakDays, u.lastExerciseDate, today),
       lastExerciseDate := Day(today))
  }

  /** A record whose columns agree one by one with the recording rules is the recorded record. */
  lemma RecordedFromParts(u: UserRecord, topic: string, isCorrect: bool, newLevel: Option<string>, today: int, r: UserRecord)
    requires r.id == u.id && r.telegramId == u.telegramId && r.username == u.username && r.goal == u.goal
    requires r.vocabularySize == u.vocabularySize
    requires r.totalExercises == u.totalExercises + 1
    requires r.correctAnswers == u.correctAnswers + (if isCorrect then 1 else 0)
    requires r.accuracy == r.correctAnswers as real / r.totalExercises as real
    requires r.weakTopics == WeakTopicsAfter(u.weakTopics, topic, isCorrect)
    requires r.level == (if Truthy(newLevel) then newLevel.value else u.level)
    requires r.streakDays == NewStreak(u.streakDays, u.lastExerciseDate, today)
    requires r.lastExerciseDate == Day(today)
    ensures r == Recorded(u, topic, isCorrect, newLevel, today)
  {
  }

  /**
   * The read-modify-write part of `record_exercise`: the new counters and
   * accuracy, the weak-topic list extended and cut in place, the streak
   * decision, and the level when a new one is given.
   */
  method UpdatedRecord(user: UserRecord, topic: string, isCorrect: bool, newLevel: Option<string>, today: int)
    returns (updated: UserRecord)
    ensures updated == Recorded(user, topic, isCorrect, newLevel, today)
  {
    var total := user.totalExercises + 1;
    var correct := user.correctAnswers + (if isCorrect then 1 else 0);
    var accuracy := correct as real / total as real;

    var weakTopics := user.weakTopics;
    if !isCorrect && topic != "" && topic !in weakTopics {
      weakTopics := weakTopics + [topic];
      weakTopics := LastN(weakTopics, WeakTopicWindow);
    }
    assert weakTopics == WeakTopicsAfter(user.weakTopics, topic, isCorrect);

    var (action, todayDate) := StreakUpdate(user.lastExerciseDate, today);
    var newStreak: nat;
    if action == 0 {
      newStreak := user.streakDays;
    } else if action == 1 {
      newStreak := if user.lastExerciseDate != Absent then user.streakDays + 1 else 1;
    } else {
      newStreak := 1;
    }
    assert newStreak == NewStreak(user.streakDays, user.lastExerciseDate, today);

    var level := user.level;
    if Truthy(newLevel) {
      level := newLevel.value;
    }
    updated := user.(totalExercises := total, correctAnswers := correct, accuracy := accuracy,
                     weakTopics := weakTopics, level := level, streakDays := newStreak,
                     lastExerciseDate := Day(todayDate));
    RecordedFromParts(user, topic, isCorrect, newLevel, today, updated);
  }

  /** One more exercise, one more correct answer exactly when the answer was right, and accuracy their quotient. */
  lemma RecordedCounters(u: UserRecord, topic: string, isCorrect: bool, newLevel: Option<string>, today: int)
    ensures var r := Recorded(u, topic, isCorrect, newLevel, today);
            && r.totalExercises == u.totalExercises + 1
            && (r.correctAnswers == u.correctAnswers + 1 <==> isCorrect)
            && (r.correctAnswers == u.correctAnswers <==> !isCorrect)
            && r.accuracy * r.totalExercises as real == r.correctAnswers as real
  {
  }

  /** Recording keeps a record valid, and leaves its accuracy within [0, 1]. */
  lemma RecordedValid(u: UserRecord, topic: string, isCorrect: bool, newLevel: Option<string>, today: int)
    requires ValidRecord(u)
    ensures ValidRecord(Recorded(u, topic, isCorrect, newLevel, today))
    ensures 0.0 <= Recorded(u, topic, isCorrect, newLevel, today).accuracy <= 1.0
  {
    WeakTopicsStayValid(u.weakTopics, topic, isCorrect);
    var r := Recorded(u, topic, isCorrect, newLevel, today);
    assert r.correctAnswers as real <= r.totalExercises as real;
  }

  /** The level is overwritten exactly when a non-empty new level is given; identity, name, goal and vocabulary stay. */
  lemma RecordedLevel(u: UserRecord, topic: string, isCorrect: bool, newLevel: Option<string>, today: int)
    ensures var r := Recorded(u, topic, isCorrect, newLevel, today);
            && (Truthy(newLevel) ==> r.level == newLevel.value)
            && (!Truthy(newLevel) ==> r.level == u.level)
            && r.id == u.id && r.telegramId == u.telegramId && r.username == u.username
            && r.goal == u.goal && r.vocabularySize == u.vocabularySize
            && r.lastExerciseDate == Day(today)
  {
  }

  /** The stored streak follows the streak rule: kept on the same day, one more after yesterday or an unreadable date, else one. */
  lemma RecordedStreak(u: UserRecord, topic: string, isCorrect: bool, newLevel: Option<string>, today: int)
    ensures var s := Recorded(u, topic, isCorrect, newLevel, today).streakDays;
            && (u.lastExerciseDate == Day(today) ==> s == u.streakDays)
            && (u.lastExerciseDate == Day(today - 1) || u.lastExerciseDate == Unparsable ==> s == u.streakDays + 1)
            && ((u.lastExerciseDate != Day(today) && u.lastExerciseDate != Day(today - 1)
                 && u.lastExerciseDate != Unparsable) ==> s == 1)
  {
  }

  /** The fields `get_user_stats` reports for a stored record. */
  function StatsOf(u: UserRecord): (s: Stats)
    ensures s.level == u.level && s.accuracy == u.accuracy && s.weakTopics == u.weakTopics
    ensures s.totalExercises == u.totalExercises && s.correctAnswers == u.correctAnswers
    ensures s.streakDays == u.streakDays
  {
    Stats(u.level, u.accuracy, u.totalExercises, u.correctAnswers, u.weakTopics, u.streakDays)
  }

  /** Recording is visible in the statistics: one more exercise, and the reported accuracy is the new quotient. */
  lemma StatsAfterRecord(u: UserRecord, topic: string, isCorrect: bool, newLevel: Option<string>, today: int)
    ensures var s := StatsOf(Recorded(u, topic, isCorrect, newLevel, today));
            && s.totalExercises == StatsOf(u).totalExercises + 1
            && s.accuracy == s.correctAnswers as real / s.totalExercises as real
            && (s.streakDays >= 1 || (u.lastExerciseDate == Day(today) && u.streakDays == 0))
  {
    StreakStep(u.streakDays, u.lastExerciseDate, today);
  }

  // ---------------------------------------------------------------------------
  // The store
  // ---------------------------------------------------------------------------

  /**
   * The tables' invariant: every record is valid and filed under its own
   * Telegram id, record ids are distinct and already issued, and every history
   * row refers to an issued id.
   */
  ghost predicate ValidStore(users: map<int, UserRecord>, history: seq<HistoryRow>, nextId: nat)
  {
    && nextId >= 1
    && (forall t :: t in users ==> ValidRecord(users[t]) && users[t].telegramId == t && 1 <= users[t].id < nextId)
    && (forall t1, t2 :: t1 in users && t2 in users && t1 != t2 ==> users[t1].id != users[t2].id)
    && (forall i :: 0 <= i < |history| ==> 1 <= history[i].userId < nextId)
  }

  /** Rewriting a stored record with a valid record that keeps its ids keeps the tables valid. */
  lemma ReplaceKeepsValid(users: map<int, UserRecord>, history: seq<HistoryRow>, nextId: nat, t: int, r: UserRecord)
    requires ValidStore(users, history, nextId) && t in users
    requires ValidRecord(r) && r.telegramId == t && r.id == users[t].id
    ensures ValidStore(users[t := r], history, nextId)
  {
  }

  /** Inserting a valid record under a new Telegram id with the next record id keeps the tables valid. */
  lemma InsertKeepsValid(users: map<int, UserRecord>, history: seq<HistoryRow>, nextId: nat, t: int, r: UserRecord)
    requires ValidStore(users, history, nextId) && t !in users
    requires ValidRecord(r) && r.telegramId == t && r.id == nextId
    ensures ValidStore(users[t := r], history, nextId + 1)
  {
  }

  /** Appending a history row for an issued record id keeps the tables valid. */
  lemma AppendKeepsValid(users: map<int, UserRecord>, history: seq<HistoryRow>, nextId: nat, row: HistoryRow)
    requires ValidStore(users, history, nextId) && 1 <= row.userId < nextId
    ensures ValidStore(users, history + [row], nextId)
  {
  }

  class UserDatabase {
    /** The `users` table, keyed by `telegram_id`. */
    var users: map<int, UserRecord>
    /** The `exercise_history` table, in insertion order. */
    var history: seq<HistoryRow>
    /** The next value of the `users.id` autoincrement. */
    var nextId: nat

    ghost predicate Valid()
      reads this
    {
      ValidStore(users, history, nextId)
    }

    /** An empty database with its tables created. */
    constructor ()
      ensures Valid()
      ensures users == map[] && history == []
    {
      users := map[];
      history := [];
      nextId := 1;
    }

    /** `get_user`: the stored record, or nothing for an unknown Telegram id. */
    function GetUser(telegramId: int): (r: Option<UserRecord>)
      reads this
      ensures r.Some? <==> telegramId in users
      ensures r.Some? ==> r.value == users[telegramId]
    {
      if telegramId in users then Some(users[telegramId]) else None
    }

    /** `get_user_stats`: nothing for an unknown user, else the stored level, counters, accuracy, weak topics and streak. */
    function GetUserStats(telegramId: int): (r: Option<Stats>)
      reads this
      ensures r.None? <==> telegramId !in users
      ensures r.Some? ==> r.value == StatsOf(users[telegramId])
    {
      match GetUser(telegramId)
      case None => None
      case Some(u) => Some(StatsOf(u))
    }

    /**
     * `get_or_create_user`: an existing user keeps everything but the name, which
     * a given name replaces; an unknown user is inserted with the defaults.
     */
    method GetOrCreateUser(telegramId: int, username: Option<string>) returns (u: UserRecord)
      requires Valid()
      modifies this
      ensures Valid()
      ensures u == FetchOrCreate(old(users), old(nextId), telegramId, username)
      ensures users == old(users)[telegramId := u]
      ensures nextId == if telegramId in old(users) then old(nextId) else old(nextId) + 1
      ensures history == old(history)
    {
      if telegramId in users {
        var existing := users[telegramId];
        var name := if username.Some? then username else existing.username;
        u := existing.(username := name);
        ReplaceKeepsValid(users, history, nextId, telegramId, u);
        users := users[telegramId := u];
      } else {
        u := NewUser(nextId, telegramId, username);
        InsertKeepsValid(users, history, nextId, telegramId, u);
        users := users[telegramId := u];
        nextId := nextId + 1;
      }
    }

    /** `set_user_level`: overwrites the level of an existing user; an unknown id changes nothing. */
    method SetUserLevel(telegramId: int, level: string)
      requires Valid()
      modifies this
      ensures Valid()
      ensures telegramId in old(users) ==> users == old(users)[telegramId := old(users)[telegramId].(level := level)]
      ensures telegramId !in old(users) ==> users == old(users)
      ensures history == old(history) && nextId == old(nextId)
    {
      if telegramId in users {
        ReplaceKeepsValid(users, history, nextId, telegramId, users[telegramId].(level := level));
        users := users[telegramId := users[telegramId].(level := level)];
      }
    }

    /**
     * `record_exercise`: fetches or creates the user, appends one history row and
     * writes back the record with the counters, weak topics, streak, date and
     * (when given) level updated. No other user's record changes.
     */
    method RecordExercise(telegramId: int, exerciseType: string, topic: string, question: string,
                          userAnswer: string, correctAnswer: string, isCorrect: bool,
                          difficulty: real, timeSpent: int, newLevel: Option<string>, today: int)
      requires Valid()
      modifies this
      ensures Valid()
      ensures var base := FetchOrCreate(old(users), old(nextId), telegramId, None);
              && users == old(users)[telegramId := Recorded(base, topic, isCorrect, newLevel, today)]
              && history == old(history) + [HistoryRow(base.id, exerciseType, topic, question, userAnswer,
                                                      correctAnswer, if isCorrect then 1 else 0, difficulty, timeSpent)]
      ensures nextId == if telegramId in old(users) then old(nextId) else old(nextId) + 1
    {
      var user := GetOrCreateUser(telegramId, None);
      var updated := UpdatedRecord(user, topic, isCorrect, newLevel, today);
      var row := HistoryRow(user.id, exerciseType, topic, question, userAnswer, correctAnswer,
                            if isCorrect then 1 else 0, difficulty, timeSpent);
      assert ValidRecord(user) && user.telegramId == telegramId && 1 <= user.id < nextId;
      AppendKeepsValid(users, history, nextId, row);
      history := history + [row];
      RecordedValid(user, topic, isCorrect, newLevel, today);
      ReplaceKeepsValid(users, history, nextId, telegramId, updated);
      users := users[telegramId := updated];
    }
  }
}
