/** How an emotion is shown: the image files of the emotion's folder, in name
    order, are displayed one per step while the two servos take the step's
    pose, and the whole sequence plays twice. `shush` instead plays a sound and
    speaks. The folder listing is a parameter; the display, the servos, the
    sound and the speech engine are the effects returned. */
module Expression {
  import opened Text
  import opened Emotions

  // ---------------------------------------------------------------------------
  // Frames

  /** A file the animation shows: its name ends in ".png" or ".jpg". */
  predicate IsImage(name: string)
    ensures IsImage(name) ==> |name| >= 4 && name[|name| - 4] == '.'
  {
    EndsWith(name, ".png") || EndsWith(name, ".jpg")
  }

  /** The image names of a listing, in listing order. */
  function ImageNames(listing: seq<string>): (r: seq<string>)
    ensures forall k :: 0 <= k < |r| ==> IsImage(r[k])
    ensures forall x :: multiset(r)[x] == if IsImage(x) then multiset(listing)[x] else 0
  {
    if listing == [] then []
    else
      var rest := ImageNames(listing[1..]);
      assert listing == [listing[0]] + listing[1..];
      if IsImage(listing[0]) then [listing[0]] + rest else rest
  }

  /** `sorted(f for f in os.listdir(folder) if f is an image)`. */
  function Frames(listing: seq<string>): (frames: seq<string>)
    ensures SortedBy(frames, NameLe)
    ensures forall x :: multiset(frames)[x] == if IsImage(x) then multiset(listing)[x] else 0
  {
    NameOrderIsTotal();
    SortBy(ImageNames(listing), NameLe)
  }

  /** The frames are the only sorted list of the listing's image names: any
      list in name order holding each image name as often as the listing does is
      the list of frames. */
  lemma FramesUnique(listing: seq<string>, frames: seq<string>)
    requires SortedBy(frames, NameLe)
    requires forall x :: multiset(frames)[x] == if IsImage(x) then multiset(listing)[x] else 0
    ensures frames == Frames(listing)
  {
    NameOrderIsTotal();
    assert multiset(frames) == multiset(Frames(listing));
    SortedUnique(frames, Frames(listing), NameLe);
  }

  /** The order in which the folder lists its files does not matter. */
  lemma FramesIgnoreListingOrder(a: seq<string>, b: seq<string>)
    requires multiset(a) == multiset(b)
    ensures Frames(a) == Frames(b)
  {
    FramesUnique(b, Frames(a));
  }

  /** A listing without images gives no frames. */
  lemma NoImagesNoFrames(listing: seq<string>)
    requires forall k :: 0 <= k < |listing| ==> !IsImage(listing[k])
    ensures Frames(listing) == []
  {
    forall x | IsImage(x) ensures multiset(listing)[x] == 0 {
      assert x !in listing;
    }
    assert multiset(Frames(listing)) == multiset{};
  }

  /** A listing "b.png", "notes.txt", "a.jpg" plays "a.jpg" then "b.png". */
  lemma FramesExample(listing: seq<string>)
    requires listing == ["b.png", "notes.txt", "a.jpg"]
    ensures Frames(listing) == ["a.jpg", "b.png"]
  {
    var frames := ["a.jpg", "b.png"];
    assert !IsImage("notes.txt");
    assert IsImage("a.jpg") && IsImage("b.png");
    assert multiset(listing) == multiset(frames) + multiset{"notes.txt"};
    assert SortedBy(frames, NameLe) by {
      assert NameLe(frames[0], frames[1]);
    }
    FramesUnique(listing, frames);
  }

  /** The extension test is case-sensitive: "A.PNG" is not a frame. */
  lemma UpperCaseExtensionIgnored()
    ensures !IsImage("A.PNG")
  {
  }

  // ---------------------------------------------------------------------------
  // Playback

  /** One step of the animation: the frame displayed and the duty values sent
      to servo channels 0 and 1. */
  datatype Tick = Tick(frame: string, duty0: int, duty1: int)

  function Min(a: nat, b: nat): nat {
    if a < b then a else b
  }

  /** One pass of `zip(frames, servo_positions)`: as many steps as the shorter
      of the two lists. */
  function Pass(frames: seq<string>, poses: seq<Pose>): (r: seq<Tick>)
    ensures |r| <= |frames| && |r| <= |poses|
    ensures |r| == |frames| || |r| == |poses|
  {
    seq(Min(|frames|, |poses|), k requires 0 <= k < Min(|frames|, |poses|) =>
      Tick(frames[k], Duty(poses[k].ch0), Duty(poses[k].ch1)))
  }

  /** `display_emotion_with_servo`: two passes, nothing at all without frames. */
  function Playback(frames: seq<string>, poses: seq<Pose>): (r: seq<Tick>)
    ensures |r| % 2 == 0 && forall k :: 0 <= k < |r| / 2 ==> r[|r| / 2 + k] == r[k]
    ensures frames == [] ==> r == []
  {
    Pass(frames, poses) + Pass(frames, poses)
  }

  /** The playback shows the first `n` frames with the first `n` poses, `n`
      being the shorter length, and then shows them again in the same order. */
  lemma PlaybackShape(frames: seq<string>, poses: seq<Pose>)
    ensures |Playback(frames, poses)| == 2 * Min(|frames|, |poses|)
    ensures forall k :: 0 <= k < Min(|frames|, |poses|) ==>
      Playback(frames, poses)[k] == Tick(frames[k], Duty(poses[k].ch0), Duty(poses[k].ch1)) &&
      Playback(frames, poses)[Min(|frames|, |poses|) + k] == Playback(frames, poses)[k]
  {
  }

  /** Step `k` of a pass: frame `k` with pose `k`. */
  predicate IsStep(frames: seq<string>, poses: seq<Pose>, t: Tick, k: int) {
    0 <= k < |frames| && k < |poses| && t == Tick(frames[k], Duty(poses[k].ch0), Duty(poses[k].ch1))
  }

  /** Frames beyond the last pose, and poses beyond the last frame, are never
      used: every step pairs a frame with the pose at the same position. */
  lemma PlaybackUsesPrefix(frames: seq<string>, poses: seq<Pose>)
    ensures forall t :: t in Playback(frames, poses) ==> exists k :: IsStep(frames, poses, t, k)
  {
    var p := Pass(frames, poses);
    forall t | t in Playback(frames, poses) ensures exists k :: IsStep(frames, poses, t, k) {
      assert t in p;
      var k :| 0 <= k < |p| && p[k] == t;
      assert IsStep(frames, poses, t, k);
    }
  }

  /** `display_emotion_with_servo`: the frames of the listing, nothing more
      when there are none, else the two rounds over the paired frames and
      poses. */
  method Play(listing: seq<string>, poses: seq<Pose>) returns (shown: seq<Tick>)
    ensures shown == Playback(Frames(listing), poses)
  {
    var frames := Frames(listing);
    if |frames| == 0 {
      return [];
    }
    shown := PlayRounds(frames, poses);
  }

  /** The two rounds of `zip(frames, servo_positions)`, step by step. */
  method PlayRounds(frames: seq<string>, poses: seq<Pose>) returns (shown: seq<Tick>)
    ensures shown == Playback(frames, poses)
  {
    var n := Min(|frames|, |poses|);
    ghost var pass := Pass(frames, poses);
    shown := [];
    for round := 0 to 2
      invariant round == 0 ==> shown == []
      invariant round == 1 ==> shown == pass
      invariant round == 2 ==> shown == pass + pass
    {
      ghost var earlier := shown;
      for k := 0 to n
        invariant shown == earlier + pass[..k]
      {
        shown := shown + [Tick(frames[k], Duty(poses[k].ch0), Duty(poses[k].ch1))];
        assert pass[..k + 1] == pass[..k] + [pass[k]];
      }
      assert pass[..n] == pass;
      assert [] + pass == pass;
    }
  }

  // ---------------------------------------------------------------------------
  // Emotions

  /** What an emotion function does, in order. */
  datatype Effect =
    | Show(tick: Tick)       // a frame on the display and a pose on the servos
    | PlaySound(file: string)
    | Say(text: string)

  const ShushSound: string := "shush.mp3"
  const ShushWords: string := "Please be quiet."

  function Shows(ticks: seq<Tick>): seq<Effect> {
    seq(|ticks|, k requires 0 <= k < |ticks| => Show(ticks[k]))
  }

  /** The emotion function of `e`, given the listing of the emotion's folder. */
  function Effects(e: Emotion, listing: seq<string>): (r: seq<Effect>)
    ensures e == Shush <==> r != [] && !r[0].Show?
    ensures e != Shush ==> forall k :: 0 <= k < |r| ==> r[k].Show?
  {
    if e == Shush then [PlaySound(ShushSound), Say(ShushWords)]
    else Shows(Playback(Frames(listing), PoseTable(e)))
  }

  /** The emotion functions: `shush` plays its sound and speaks, every other
      emotion plays its pose table against its frames. */
  method Express(e: Emotion, listing: seq<string>) returns (effects: seq<Effect>)
    ensures effects == Effects(e, listing)
  {
    if e == Shush {
      effects := [PlaySound(ShushSound), Say(ShushWords)];
    } else {
      var ticks := Play(listing, PoseTable(e));
      effects := Shows(ticks);
    }
  }

  /** Every duty value an animated emotion sends lies between 2399 and 9599,
      the images of the pose table's 150 to 600. */
  lemma AnimationDutiesInRange(e: Emotion, listing: seq<string>)
    requires e != Shush
    ensures forall j :: 0 <= j < |Effects(e, listing)| ==>
      Effects(e, listing)[j].Show? &&
      2399 <= Effects(e, listing)[j].tick.duty0 <= 9599 &&
      2399 <= Effects(e, listing)[j].tick.duty1 <= 9599
  {
    PoseTableInRange(e);
    PlaybackDutiesInRange(Frames(listing), PoseTable(e));
  }

  /** Poses within the servo range give duty values within 2399 to 9599. */
  lemma PlaybackDutiesInRange(frames: seq<string>, poses: seq<Pose>)
    requires forall k :: 0 <= k < |poses| ==> InServoRange(poses[k])
    ensures forall j :: 0 <= j < |Playback(frames, poses)| ==>
      2399 <= Playback(frames, poses)[j].duty0 <= 9599 &&
      2399 <= Playback(frames, poses)[j].duty1 <= 9599
  {
    var n := Min(|frames|, |poses|);
    PlaybackShape(frames, poses);
    var ticks := Playback(frames, poses);
    forall j | 0 <= j < |ticks|
      ensures 2399 <= ticks[j].duty0 <= 9599 && 2399 <= ticks[j].duty1 <= 9599
    {
      var k := if j < n then j else j - n;
      assert ticks[j] == Tick(frames[k], Duty(poses[k].ch0), Duty(poses[k].ch1));
      DutyRange(poses[k].ch0);
      DutyRange(poses[k].ch1);
    }
  }

  /** An animated emotion shows twice as many steps as the shorter of its
      frames and its pose table, so never more than 40. */
  lemma AnimationLength(e: Emotion, listing: seq<string>)
    requires e != Shush
    ensures |Effects(e, listing)| == 2 * Min(|Frames(listing)|, |PoseTable(e)|)
    ensures |Effects(e, listing)| <= 40
  {
    PlaybackShape(Frames(listing), PoseTable(e));
    PoseTableInRange(e);
  }

  /** An animated emotion whose folder holds no image does nothing. */
  lemma NoFramesNoAnimation(e: Emotion, listing: seq<string>)
    requires e != Shush
    requires forall k :: 0 <= k < |listing| ==> !IsImage(listing[k])
    ensures Effects(e, listing) == []
  {
    NoImagesNoFrames(listing);
  }

  /** `shush` shows nothing and moves no servo, whatever its folder holds. */
  lemma ShushShowsNothing(listing: seq<string>)
    ensures forall x :: x in Effects(Shush, listing) ==> !x.Show?
    ensures Effects(Shush, listing)[0] == PlaySound(ShushSound)
  {
  }
}
