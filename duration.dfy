/** The HH:MM:SS rendering of an elapsed number of seconds shown on a
    running dock. */
module Duration {
  import opened Decimal

  datatype Clock = Clock(hours: nat, minutes: nat, seconds: nat)

  /** Hours, minutes and seconds of sec: minutes and seconds below 60, and
      together they add back up to sec. */
  function Split(sec: nat): (c: Clock)
    ensures c.minutes < 60 && c.seconds < 60
    ensures c.hours * 3600 + c.minutes * 60 + c.seconds == sec
  {
    Clock(sec / 3600, (sec % 3600) / 60, sec % 60)
  }

  /** fmtDuration: each part padded to two digits, hours may take more; the
      text is the fixed-width HH:MM:SS below 100 hours. */
  function FmtDuration(sec: nat): (t: string)
    ensures |t| >= 8 && t[|t| - 3] == ':' && t[|t| - 6] == ':'
    ensures sec < 360000 <==> |t| == 8
    ensures forall i :: 0 <= i < |t| && i != |t| - 3 && i != |t| - 6 ==> IsDigit(t[i])
    ensures sec >= 360000 ==> t[0] != '0'
  {
    var c := Split(sec);
    var hh, mm, ss := Pad2(c.hours), Pad2(c.minutes), Pad2(c.seconds);
    var t := hh + ":" + mm + ":" + ss;
    assert |mm| == 2 && |ss| == 2;
    assert c.hours < 100 <==> sec < 360000;
    assert forall i :: 0 <= i < |hh| ==> t[i] == hh[i];
    assert forall i :: 0 <= i < 2 ==> t[|hh| + 1 + i] == mm[i] && t[|hh| + 4 + i] == ss[i];
    assert c.hours >= 100 ==> hh == NatToString(c.hours) && hh[0] != '0';
    t
  }

  /** Reads an H+:MM:SS text back as seconds. */
  function ParseDuration(t: string): nat
  {
    if |t| < 6 then 0
    else
      var n := |t|;
      ParseDecimal(t[..n - 6]) * 3600 + ParseDecimal(t[n - 5..n - 3]) * 60 + ParseDecimal(t[n - 2..])
  }

  /** Reading back H:MM:SS built from three parts reads each part. */
  lemma ParseJoined(hh: string, mm: string, ss: string)
    requires |mm| == 2 && |ss| == 2
    ensures ParseDuration(hh + ":" + mm + ":" + ss) == ParseDecimal(hh) * 3600 + ParseDecimal(mm) * 60 + ParseDecimal(ss)
    ensures var t := hh + ":" + mm + ":" + ss;
      t[..|t| - 6] == hh && t[|t| - 5..|t| - 3] == mm && t[|t| - 2..] == ss
  {
    var t := hh + ":" + mm + ":" + ss;
    var n := |t|;
    assert t[..n - 6] == hh;
    assert t[n - 5..n - 3] == mm;
    assert t[n - 2..] == ss;
  }

  /** The rendering has the colon layout H+:MM:SS, its three fields read
      back as the hours, minutes and seconds of sec, and the whole reads
      back as sec. */
  lemma FmtDurationRoundTrip(sec: nat)
    ensures var t := FmtDuration(sec);
      |t| >= 8 && t[|t| - 3] == ':' && t[|t| - 6] == ':' && ParseDuration(t) == sec
    ensures var t, c := FmtDuration(sec), Split(sec);
      ParseDecimal(t[..|t| - 6]) == c.hours && ParseDecimal(t[|t| - 5..|t| - 3]) == c.minutes && ParseDecimal(t[|t| - 2..]) == c.seconds
  {
    var c := Split(sec);
    var hh, mm, ss := Pad2(c.hours), Pad2(c.minutes), Pad2(c.seconds);
    assert FmtDuration(sec) == hh + ":" + mm + ":" + ss;
    ParseJoined(hh, mm, ss);
    ParsePad2(c.hours);
    ParsePad2(c.minutes);
    ParsePad2(c.seconds);
  }
}
