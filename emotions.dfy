/** The nine emotions the controller knows (the keys of its `emotion_functions`
    table), the servo pose table each animated emotion plays, and the PCA9685
    duty value a servo position is turned into. */
module Emotions {
  import opened Text

  datatype Emotion = Happy | Sad | Angry | Blink | Excited | Dizzy | Sleep | Neutral | Shush

  /** The emotion's key in `emotion_functions`. */
  function Name(e: Emotion): (key: string)
    ensures key != [] && forall k :: 0 <= k < |key| ==> 'a' <= key[k] <= 'z'
  {
    match e
    case Happy => "happy"
    case Sad => "sad"
    case Angry => "angry"
    case Blink => "blink"
    case Excited => "excited"
    case Dizzy => "dizzy"
    case Sleep => "sleep"
    case Neutral => "neutral"
    case Shush => "shush"
  }

  /** Different emotions have different keys. */
  lemma NameInjective(e: Emotion, f: Emotion)
    requires Name(e) == Name(f)
    ensures e == f
  {
  }

  /** Python's `tag in emotion_functions` followed by the lookup. */
  function Lookup(tag: string): (r: Option<Emotion>)
    ensures r.Some? ==> Name(r.value) == tag
    ensures r.None? ==> forall e :: Name(e) != tag
  {
    if tag == "happy" then Some(Happy)
    else if tag == "sad" then Some(Sad)
    else if tag == "angry" then Some(Angry)
    else if tag == "blink" then Some(Blink)
    else if tag == "excited" then Some(Excited)
    else if tag == "dizzy" then Some(Dizzy)
    else if tag == "sleep" then Some(Sleep)
    else if tag == "neutral" then Some(Neutral)
    else if tag == "shush" then Some(Shush)
    else None
  }

  /** Looking up an emotion's own key finds that emotion. */
  lemma LookupName(e: Emotion)
    ensures Lookup(Name(e)) == Some(e)
  {
    if Lookup(Name(e)).Some? {
      NameInjective(Lookup(Name(e)).value, e);
    }
  }

  // ---------------------------------------------------------------------------
  // Servo poses

  /** Pulse lengths out of 4096 that bound every authored pose. */
  const ServoMin: int := 150
  const ServoMax: int := 600

  /** Positions for servo channel 0 and channel 1. */
  datatype Pose = Pose(ch0: int, ch1: int)

  predicate InServoRange(p: Pose) {
    ServoMin <= p.ch0 <= ServoMax && ServoMin <= p.ch1 <= ServoMax
  }

  /** Python's `block * n` on a list: `n` copies of `block`, one after another. */
  function Repeat(block: seq<Pose>, n: nat): (r: seq<Pose>)
    ensures |r| == |block| * n
    ensures n > 0 ==> r[..|block|] == block
    ensures forall k :: |block| <= k < |r| ==> r[k] == r[k - |block|]
    ensures forall x :: x in r ==> x in block
  {
    if n == 0 then []
    else
      var rest := Repeat(block, n - 1);
      assert |block| * n == |block| + |block| * (n - 1);
      assert forall k :: |block| <= k < |block| + |rest| ==> (block + rest)[k] == rest[k - |block|];
      block + rest
  }

  /** The authored pose table of an animated emotion (`shush` has none: it plays
      a sound and speaks instead). */
  function PoseTable(e: Emotion): (t: seq<Pose>)
    requires e != Shush
    ensures |t| == if e == Excited || e == Dizzy then 10 else 20
  {
    var high, low, mid := Pose(ServoMax, ServoMax), Pose(ServoMin, ServoMin), Pose(ServoMax / 2, ServoMax / 2);
    match e
    case Happy => Repeat([high], 10) + Repeat([low], 10)
    case Sad => Repeat([Pose(ServoMax, ServoMin)], 10) + Repeat([low], 10)
    case Angry => Repeat([Pose(ServoMin, ServoMax)], 10) + Repeat([low], 10)
    case Blink => Repeat([mid], 10) + Repeat([low], 10)
    case Excited => Repeat([high, low], 5)
    case Dizzy => Repeat([Pose(ServoMax, ServoMin), Pose(ServoMin, ServoMax)], 5)
    case Sleep => Repeat([low], 20)
    case Neutral => Repeat([mid], 10) + Repeat([low], 10)
  }

  /** Every authored pose lies within [ServoMin, ServoMax] on both channels. */
  lemma PoseTableInRange(e: Emotion)
    requires e != Shush
    ensures forall k :: 0 <= k < |PoseTable(e)| ==> InServoRange(PoseTable(e)[k])
  {
    var t := PoseTable(e);
    forall k | 0 <= k < |t| ensures InServoRange(t[k]) {
      assert t[k] in t;
    }
  }

  // ---------------------------------------------------------------------------
  // Duty cycle

  /** `move_servo`'s `int(position / 4096 * 65535)`. Division by 4096 is exact
      in floating point and, for |position| <= 2^37, so is the product; `int`
      truncates toward zero. */
  function Duty(position: int): (d: int)
    ensures position >= 0 ==> 0 <= d && d * 4096 <= position * 65535 < (d + 1) * 4096
    ensures position < 0 ==> d <= 0 && -d * 4096 <= -position * 65535 < (-d + 1) * 4096
  {
    if position >= 0 then position * 65535 / 4096 else -((-position) * 65535 / 4096)
  }

  /** A larger position never gives a smaller duty value. */
  lemma DutyMonotone(p: int, q: int)
    requires p <= q
    ensures Duty(p) <= Duty(q)
  {
    if 0 <= p {
      DutyMonotoneNat(p, q);
    } else if q < 0 {
      DutyMonotoneNat(-q, -p);
    }
  }

  lemma DutyMonotoneNat(p: nat, q: nat)
    requires p <= q
    ensures Duty(p) <= Duty(q)
  {
    var dp, dq := Duty(p), Duty(q);
    assert dp * 4096 <= p * 65535 <= q * 65535 < (dq + 1) * 4096;
  }

  /** Positions in the servo range give duty values 2399 to 9599; positions in
      the 4096-step range fit the 16-bit duty register. */
  lemma DutyRange(p: int)
    ensures ServoMin <= p <= ServoMax ==> 2399 <= Duty(p) <= 9599
    ensures 0 <= p <= 4096 ==> 0 <= Duty(p) <= 65535
  {
    DutyMonotone(ServoMin, ServoMax);
    if ServoMin <= p <= ServoMax {
      DutyMonotone(ServoMin, p);
      DutyMonotone(p, ServoMax);
    }
    if 0 <= p <= 4096 {
      DutyMonotone(p, 4096);
    }
  }
}
