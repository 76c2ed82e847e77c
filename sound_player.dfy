/** The piezo melody sequencer (SoundPlayer.h): `play` starts the first
    note of a melody, and every `service` call moves on to the next note
    once the current one has sounded for its duration. The tone driver is a
    log of the calls made to it. */
module Sound {

  /** `MAX_NOTES`: the size of a melody's note and duration arrays. */
  const MaxNotes: nat := 20

  /** `struct melody`: the two arrays, padded to MaxNotes, and the count of
      notes in use. */
  datatype Melody = Melody(durr: seq<int>, notes: seq<int>, len: int)

  /** A melody the sequencer can run: full-size arrays of `uint16_t`
      durations and `int` frequencies, and a `uint8_t` length that stays
      inside the arrays. */
  predicate WellFormed(m: Melody)
  {
    |m.durr| == MaxNotes && |m.notes| == MaxNotes && 0 <= m.len <= MaxNotes
    && (forall i :: 0 <= i < MaxNotes ==> 0 <= m.durr[i] < 0x1_0000)
  }

  /** A call to the tone driver: `toneAC2` with a frequency and a length, or `noToneAC2`. */
  datatype ToneEvent = Tone(note: int, durr: int) | NoTone

  datatype Option<T> = None | Some(value: T)

  /** The sequencer's fields `_curr`, `_start` and `_idx`. */
  datatype PlayerState = PlayerState(curr: Option<Melody>, start: int, idx: int)

  /** What the fields always satisfy: the index stays inside the arrays, is
      below the length while a melody of at least one note plays, and is 0
      when nothing plays. */
  predicate PlayerInv(p: PlayerState)
  {
    0 <= p.idx < MaxNotes
    && (p.curr.Some? ==> WellFormed(p.curr.value) && (p.idx < p.curr.value.len || p.idx == 0))
    && (p.curr.None? ==> p.idx == 0)
  }

  /** The state `play(m)` leaves at time `now`, and the tone it starts. */
  function PlayStep(m: Melody, now: int): (r: (PlayerState, ToneEvent))
    requires WellFormed(m)
    ensures PlayerInv(r.0)
  {
    (PlayerState(Some(m), now, 0), Tone(m.notes[0], m.durr[0]))
  }

  /** One `service` call at time `now`: the new state and the tone calls it makes. */
  function ServiceStep(p: PlayerState, now: int): (r: (PlayerState, seq<ToneEvent>))
    requires PlayerInv(p)
    ensures PlayerInv(r.0)
    ensures |r.1| <= 1
  {
    match p.curr
    case None => (p, [])
    case Some(m) =>
      if m.durr[p.idx] + p.start <= now then
        var next := p.idx + 1;
        if next >= m.len then (PlayerState(None, p.start, 0), [NoTone])
        else (PlayerState(p.curr, now, next), [Tone(m.notes[next], m.durr[next])])
      else (p, [])
  }

  /** With nothing to play, or before the current note's time is up, service
      changes nothing and makes no tone call. */
  lemma ServiceWaits(p: PlayerState, now: int)
    requires PlayerInv(p)
    requires p.curr.None? || p.curr.value.durr[p.idx] + p.start > now
    ensures ServiceStep(p, now) == (p, [])
  {
  }

  /** Once the current note's time is up, service moves to the next note:
      the index goes up by exactly one, the note's timer restarts at `now`
      and that note is started; past the last note the tone stops and the
      sequencer returns to idle with index 0. */
  lemma ServiceAdvances(p: PlayerState, now: int)
    requires PlayerInv(p) && p.curr.Some?
    requires p.curr.value.durr[p.idx] + p.start <= now
    ensures var m := p.curr.value; var r := ServiceStep(p, now);
      if p.idx + 1 < m.len then
        r.0.curr == p.curr && r.0.idx == p.idx + 1 && r.0.start == now
        && r.1 == [Tone(m.notes[p.idx + 1], m.durr[p.idx + 1])]
      else
        r.0.curr.None? && r.0.idx == 0 && r.1 == [NoTone]
  {
  }

  /** The sequence of service calls at the times `times`. */
  function Run(p: PlayerState, times: seq<int>): (r: (PlayerState, seq<ToneEvent>))
    requires PlayerInv(p)
    ensures PlayerInv(r.0)
    ensures |r.1| <= |times|
    decreases |times|
  {
    if times == [] then (p, [])
    else
      var s := ServiceStep(p, times[0]);
      var rest := Run(s.0, times[1..]);
      (rest.0, s.1 + rest.1)
  }

  /** The tone calls of the first `k + 1` notes of `m`, in order. */
  function Played(m: Melody, k: nat): (r: seq<ToneEvent>)
    requires WellFormed(m) && k < MaxNotes
    ensures |r| == k + 1
    ensures forall i :: 0 <= i <= k ==> r[i] == Tone(m.notes[i], m.durr[i])
  {
    seq(k + 1, i requires 0 <= i <= k => Tone(m.notes[i], m.durr[i]))
  }

  /** The tone log `log` agrees with the state `p` of a run of `m`: playing
      note `idx` after notes 0..idx, or stopped after all `len` notes. */
  predicate Consistent(m: Melody, p: PlayerState, log: seq<ToneEvent>)
    requires WellFormed(m) && 1 <= m.len
  {
    (p.curr == Some(m) && 0 <= p.idx < m.len && log == Played(m, p.idx))
    || (p.curr.None? && p.idx == 0 && log == Played(m, m.len - 1) + [NoTone])
  }

  lemma PlayIsConsistent(m: Melody, now: int)
    requires WellFormed(m) && 1 <= m.len
    ensures Consistent(m, PlayStep(m, now).0, [PlayStep(m, now).1])
  {
  }

  lemma StepKeepsConsistent(m: Melody, p: PlayerState, log: seq<ToneEvent>, now: int)
    requires WellFormed(m) && 1 <= m.len && PlayerInv(p)
    requires Consistent(m, p, log)
    ensures Consistent(m, ServiceStep(p, now).0, log + ServiceStep(p, now).1)
  {
    var r := ServiceStep(p, now);
    if p.curr.Some? && m.durr[p.idx] + p.start <= now && p.idx + 1 < m.len {
      assert log + r.1 == Played(m, p.idx + 1);
    }
  }

  lemma {:induction false} RunKeepsConsistent(m: Melody, p: PlayerState, log: seq<ToneEvent>, times: seq<int>)
    requires WellFormed(m) && 1 <= m.len && PlayerInv(p)
    requires Consistent(m, p, log)
    ensures Consistent(m, Run(p, times).0, log + Run(p, times).1)
    decreases |times|
  {
    if times != [] {
      var s := ServiceStep(p, times[0]);
      var rest := Run(s.0, times[1..]);
      var r := Run(p, times);
      assert r == (rest.0, s.1 + rest.1);
      assert log + r.1 == (log + s.1) + rest.1;
      StepKeepsConsistent(m, p, log, times[0]);
      RunKeepsConsistent(m, s.0, log + s.1, times[1..]);
    }
  }

  /** Whatever the times of the service calls, the tone calls after `play(m)`
      are the notes of `m` in order, each with its own duration, never one
      beyond `len`, and after the last note a single stop. */
  lemma MelodyPlaysInOrder(m: Melody, now: int, times: seq<int>)
    requires WellFormed(m) && 1 <= m.len
    ensures var r := Run(PlayStep(m, now).0, times); var log := [PlayStep(m, now).1] + r.1;
      (r.0.curr == Some(m) && r.0.idx < m.len && log == Played(m, r.0.idx))
      || (r.0.curr.None? && log == Played(m, m.len - 1) + [NoTone])
  {
    PlayIsConsistent(m, now);
    RunKeepsConsistent(m, PlayStep(m, now).0, [PlayStep(m, now).1], times);
  }

  // ----- The built-in melodies -----

  /** The arrays of a static melody: the listed values, then zeros up to MaxNotes. */
  function Padded(xs: seq<int>): (r: seq<int>)
    requires |xs| <= MaxNotes
    ensures |r| == MaxNotes && r[..|xs|] == xs
    ensures forall i :: |xs| <= i < MaxNotes ==> r[i] == 0
  {
    xs + seq(MaxNotes - |xs|, _ => 0)
  }

  const NoteD4: int := 294
  const NoteFS4: int := 370
  const NoteA4: int := 440
  const NoteC4: int := 262
  const NoteE4: int := 330
  const NoteG4: int := 392
  const NoteC5: int := 523

  /** `SoundPlayer::boot`. */
  const Boot: Melody := Melody(
    Padded([100, 100, 100, 100, 100, 100, 200]),
    Padded([NoteC4, NoteE4, NoteG4, NoteC5, NoteG4, NoteE4, NoteC4]),
    7)

  /** `SoundPlayer::close`. */
  const Close: Melody := Melody(Padded([2000, 2000, 3000]), Padded([NoteA4, NoteFS4, NoteD4]), 3)

  /** `SoundPlayer::open`. */
  const Open: Melody := Melody(Padded([2000, 2000, 3000]), Padded([NoteD4, NoteFS4, NoteA4]), 3)

  /** The total of a list of note durations. */
  function Total(ds: seq<int>): int
  {
    if ds == [] then 0 else ds[0] + Total(ds[1..])
  }

  /** The sum of the durations of a melody's notes. */
  function Duration(m: Melody): int
    requires WellFormed(m)
  {
    Total(m.durr[..m.len])
  }

  /** The three melodies fit the arrays, with 7, 3 and 3 notes; the boot
      tune lasts 800 ms and the door tunes 7000 ms each; the opening tune
      plays the closing one's notes in reverse order, with the same durations. */
  lemma BuiltInMelodies()
    ensures WellFormed(Boot) && WellFormed(Close) && WellFormed(Open)
    ensures Boot.len == 7 && Close.len == 3 && Open.len == 3
    ensures Duration(Boot) == 800 && Duration(Close) == 7000 && Duration(Open) == 7000
    ensures forall i :: 0 <= i < 3 ==> Open.notes[i] == Close.notes[2 - i]
    ensures Open.durr == Close.durr
  {
    assert Boot.durr[..7] == [100, 100, 100, 100, 100, 100, 200];
    assert Close.durr[..3] == [2000, 2000, 3000];
    assert Open.durr[..3] == [2000, 2000, 3000];
    assert Close.notes[..3] == [NoteA4, NoteFS4, NoteD4];
    assert Open.notes[..3] == [NoteD4, NoteFS4, NoteA4];
  }

  // ----- The player object -----

  /** `SoundPlayer`. The pins only address the driver and are left out; the
      driver is the log of its calls. */
  class SoundPlayer {
    var curr: Option<Melody>
    var start: int
    var idx: int
    var tones: seq<ToneEvent>

    function State(): PlayerState
      reads this
    {
      PlayerState(curr, start, idx)
    }

    ghost predicate Valid()
      reads this
    {
      PlayerInv(State())
    }

    /** The constructor: nothing to play, index 0. */
    constructor ()
      ensures Valid()
      ensures curr.None? && idx == 0 && start == 0 && tones == []
    {
      curr := None;
      idx := 0;
      start := 0;
      tones := [];
    }

    /** `play`: make `m` current, restart the timer and start its first note. */
    method Play(m: Melody, now: int)
      requires WellFormed(m)
      modifies this
      ensures Valid()
      ensures State() == PlayStep(m, now).0
      ensures tones == old(tones) + [PlayStep(m, now).1]
    {
      curr := Some(m);
      start := now;
      tones := tones + [Tone(m.notes[0], m.durr[0])];
      idx := 0;
    }

    /** `service` at time `now`. */
    method Service(now: int)
      requires Valid()
      modifies this
      ensures Valid()
      ensures State() == ServiceStep(old(State()), now).0
      ensures tones == old(tones) + ServiceStep(old(State()), now).1
    {
      if curr.Some? && curr.value.durr[idx] + start <= now {
        var m := curr.value;
        idx := idx + 1;
        if idx >= m.len {
          tones := tones + [NoTone];
          curr := None;
          idx := 0;
        } else {
          start := now;
          tones := tones + [Tone(m.notes[idx], m.durr[idx])];
        }
      }
    }
  }
}
