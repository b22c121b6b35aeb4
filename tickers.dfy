/** The elapsed-time counter of the game window (Ticker.java): a second count,
    a running flag, and the MM:SS text shown for the count. */
module Tickers {
  import opened Decimal

  /** A time part below 10 gets one leading '0'; then it is exactly two
      digits long and still denotes n. */
  lemma Padded(n: nat)
    requires n < 100
    ensures var p := if n < 10 then "0" + NatToString(n) else NatToString(n);
      |p| == 2 && AllDigits(p) && ValueOf(p) == n
  {
    ValueOfNatToString(n);
    if n < 10 {
      LeadingZero(NatToString(n));
    } else {
      TwoDigits(n);
    }
  }

  /** The minutes part: padded to two digits below 10, printed as is from 10 on. */
  lemma MinutesPart(n: nat)
    ensures var p := if n < 10 then "0" + NatToString(n) else NatToString(n);
      2 <= |p| && AllDigits(p) && ValueOf(p) == n && (p[0] == '0') == (n < 10)
  {
    ValueOfNatToString(n);
    if n < 10 {
      LeadingZero(NatToString(n));
    } else {
      var s := NatToString(n);
      assert s == NatToString(n / 10) + [DigitChar(n % 10)];
    }
  }

  /** Joining the two parts with ':' leaves each part readable at a fixed place. */
  lemma Joined(m: string, s: string)
    requires |s| == 2
    ensures var t := m + ":" + s;
      |t| == |m| + 3 && t[|t| - 3] == ':' && t[..|t| - 3] == m && t[|t| - 2..] == s
  {
  }

  class Ticker {
    var seconds: nat
    var running: bool

    /** A new ticker shows 0 seconds and is not running. */
    constructor ()
      ensures seconds == 0 && !running
    {
      seconds := 0;
      running := false;
    }

    method Start()
      modifies this
      ensures running && seconds == old(seconds)
    {
      running := true;
    }

    /** Stops the count and keeps the elapsed time. */
    method Stop()
      modifies this
      ensures !running && seconds == old(seconds)
    {
      running := false;
    }

    /** Stops the count and sets the elapsed time back to 0. */
    method Reset()
      modifies this
      ensures !running && seconds == 0
    {
      seconds := 0;
      running := false;
    }

    method IsRunning() returns (r: bool)
      ensures r == running
    {
      r := running;
    }

    /** One timer tick: one more second elapsed. */
    method ActionPerformed()
      modifies this
      ensures seconds == old(seconds) + 1 && running == old(running)
    {
      seconds := seconds + 1;
    }

    /** The elapsed time as minutes, ':' and two-digit seconds. The minutes
        carry a leading '0' exactly when they are below 10, so below ten
        minutes the text is the five characters MM:SS. */
    function GetTime(): (t: string)
      reads this
      ensures 5 <= |t| && t[|t| - 3] == ':'
      ensures AllDigits(t[..|t| - 3]) && ValueOf(t[..|t| - 3]) == seconds / 60
      ensures AllDigits(t[|t| - 2..]) && ValueOf(t[|t| - 2..]) == seconds % 60
      ensures (t[0] == '0') == (seconds / 60 < 10)
      ensures seconds < 600 ==> |t| == 5
    {
      var min := seconds / 60;
      var sec := seconds % 60;
      var m := if min < 10 then "0" + NatToString(min) else NatToString(min);
      var s := if sec < 10 then "0" + NatToString(sec) else NatToString(sec);
      MinutesPart(min);
      Padded(sec);
      Joined(m, s);
      var t :=
        if min < 10 && sec < 10 then "0" + NatToString(min) + ":" + "0" + NatToString(sec)
        else if min < 10 then "0" + NatToString(min) + ":" + NatToString(sec)
        else if sec < 10 then NatToString(min) + ":" + "0" + NatToString(sec)
        else NatToString(min) + ":" + NatToString(sec);
      assert t == m + ":" + s;
      t
    }
  }
}
