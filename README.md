# Wifi-Wonder: the scramble animation and the fake network identity

Wifi-Wonder is a decorative browser page that pretends to find a wifi
password. Its script has two pieces of real logic, and this project models
and proves both in Dafny:

- `UI.scramble(element, targetText)` is a text-scramble animation. On every
  30 ms timer tick it rewrites the element. A position below the reveal
  counter `iteration` shows its true character. Every other position shows a
  random character from a fixed 41-character alphabet. When
  `iteration >= |targetText|`, the tick clears the interval and resolves the
  promise. Every tick, that one included, then adds 1/3 to the counter.
  Module `Scramble` holds a `Frame` function for one tick's text and a
  `Scrambler` class that holds the job's state: the counter (an exact
  rational), the element's text, whether the interval runs, and how often
  the promise was resolved. Its `Tick` method is one timer callback. `Run`
  plays the whole animation until the interval is cleared.
- `getWifiInfo()` builds a fake SSID and password from navigator hints.
  Module `Identity` models it as functions over optional inputs. Absent or
  zero hints default to 4 cores and 8 GB (JavaScript `||`). The seed is
  `(hw * mem * 12345).toString(16).toUpperCase()`. The password is
  `KEY-` + `seed.substring(0, 4)` + `-` + `seed.substring(4, 8)`. The SSID is
  `System_` + either `Network_Link` or the upper-cased connection type and
  the downlink speed. If the body throws, the function returns a fixed
  fallback record.
- Module `Radix` models `Number.prototype.toString(radix)` for radices 10
  and 16, with the inverse reading of a digit string. Module `Ascii` models
  `toUpperCase`. Module `Options` holds the `Option` and `Result` types.

Host reads are inputs, and `Math.random` is an oracle. The navigator and
connection objects become a `Navigator` value. An `Option` field is `None`
when the browser leaves that value `undefined`. Each tick gets a sequence of
draws, one alphabet index per position. The draw of a revealed position is
not used.

Three consequences of the code are worth stating, all with the exact
counter t/3 after t ticks:
- Position `i` is revealed when `i < iteration`. After t ticks the revealed
  prefix therefore has length min(n, ceil(t/3)). A counter of 1/3 (the
  second tick) already reveals position 0 (`Shown`, `RevealedPrefix`).
- The seed is the unpadded hex form of `hw * mem * 12345`. A four-digit seed
  leaves the second password group empty (`ShortSeedPassword`).
- The full target is on screen from tick `3n - 2`, and the interval stops
  at tick `3n` (ticks counted from 0). The target is therefore written three
  times, and completion is signalled once (`AllShown`, `Run`).

## Model

| member | source | states |
|---|---|---|
| Ascii.UpperChar | script.js:36 | the result is never a lower-case letter; `a`..`z` move to `A`..`Z` and every other character is unchanged |
| Ascii.ToUpperCase | script.js:36 | same length as the input, each position upper-cased, no lower-case letter left |
| Ascii.ToUpperCaseIdempotent | script.js:41 | upper-casing twice is the same as upper-casing once |
| Ascii.ToUpperCaseNoLower | script.js:41 | a string without lower-case letters is left unchanged |
| Radix.DigitValue | script.js:41 | a digit character of either case has a value below 36, and the value is below 10 exactly for `0`..`9` |
| Radix.DigitChar | script.js:41 | the digit character written for `d` is alphanumeric, not upper-case, and reads back as `d` |
| Radix.ToRadix | script.js:41 | `toString(radix)` gives a canonical lower-case digit string; it is `"0"` exactly for 0, and it has more than one digit exactly when n >= radix |
| Radix.Value | script.js:41 | a string of k digits has a value below radix^k; a single digit has its own value |
| Radix.ValueOfToRadix | script.js:41 | reading back the digits `toString` writes gives the original number |
| Radix.ValuePositive | script.js:41 | a digit string with a non-zero leading digit has a positive value |
| Radix.ToRadixOfValue | script.js:41 | every canonical lower-case digit string is exactly what `toString` writes for its value |
| Radix.AppendDigit | script.js:41 | appending digit d to the numeral of q >= 1 gives the numeral of q * radix + d |
| Radix.ValueOfUpper | script.js:41 | upper-casing a digit string keeps it valid and keeps its value |
| Scramble.Iteration | script.js:9-23 | the counter starts at 0 and gains 1/3 per tick: three times the counter is the tick count |
| Scramble.Frame | script.js:11-17 | the frame has the target's length; a position below the counter shows the target's character; every other position shows an alphabet character |
| Scramble.Shown | script.js:14 | the number of revealed positions is at most the target length and is ceil(ticks / 3) while below it |
| Scramble.RevealRule | script.js:14 | position i is revealed at tick t exactly when 3i < t |
| Scramble.StopRule | script.js:19 | the stop test `iteration >= length` holds exactly from tick 3 * length on |
| Scramble.RevealedPrefix | script.js:11-17 | each frame is the target's first Shown characters followed by alphabet characters |
| Scramble.ShownStep | script.js:14-23 | from one tick to the next the revealed count never drops and grows by at most one |
| Scramble.RevealMonotone | script.js:14-23 | a position revealed at some tick shows its true character at every later tick, whatever the draws |
| Scramble.AllShown | script.js:14-23 | every position is revealed exactly from tick 3 * length - 2 on |
| Scramble.FinalFrame | script.js:11-22 | the frame of the stopping tick is the target itself, whatever the draws |
| Scramble.Scrambler.constructor | script.js:8-10 | a new job has counter 0, a running interval, no resolution, and the element's old text |
| Scramble.Scrambler.Tick | script.js:10-24 | writes the frame for the current counter, stops and resolves exactly on tick 3 * length (when the frame is the target), and adds 1/3 to the counter; the job invariant is kept |
| Scramble.Run | script.js:6-26 | the animation writes exactly 3 * length + 1 frames, frame k is the frame for counter k/3 and the draws of tick k, the last frame is the target, and the promise resolves exactly once; an empty target gives a single empty frame |
| Identity.OrDefault | script.js:39-40 | a present non-zero hint is used; an absent or zero hint gives the default; a positive default gives a positive result |
| Identity.DownlinkText | script.js:36 | a present speed is written as its canonical decimal digits; an absent one is written as `NaN` |
| Identity.DerivedSsid | script.js:34-37 | the SSID body throws exactly when a connection has no effectiveType; with no connection it is `Network_Link` |
| Identity.Seed | script.js:41 | the seed is a canonical hex string with no lower-case letter, and its value is hw * mem * 12345 |
| Identity.SeedDeterminesProduct | script.js:41 | two seeds are equal exactly when their products hw * mem are equal |
| Identity.Throws | script.js:36 | the body throws exactly when computing `derivedSSID` throws, which is when a connection has no effectiveType |
| Identity.Clamp | script.js:45 | a `substring` end already in [0, length] is kept, a negative end becomes 0, and an end past the length becomes the length |
| Identity.Substring | script.js:45 | a substring is never longer than its string |
| Identity.SubstringOrdered | script.js:45 | with ordered non-negative ends, `substring` is the slice between the ends clamped to the length |
| Identity.SubstringSymmetric | script.js:45 | swapping the two ends of `substring` changes nothing |
| Identity.Password | script.js:45 | the password starts with `KEY-` and is `KEY-` + seed[0..min(4,len)) + `-` + seed[min(4,len)..min(8,len)), of length 5 + min(8, len) |
| Identity.GetWifiInfo | script.js:29-53 | the result is the fallback record exactly when the body throws; otherwise the SSID starts with `System_`, and the password is the password of the seed of the defaulted hints (absent or zero hints give 4 and 8), so it starts with `KEY-`; with no connection the SSID is `System_Network_Link` |
| Identity.DefaultSeed | script.js:39-41 | the default product 4 * 8 * 12345 = 395040 gives seed `60720` |
| Identity.MinimalSeed | script.js:41 | one core and 1 GB give the product 12345 and seed `3039` |
| Identity.PasswordOf | script.js:45 | seed `60720` gives `KEY-6072-0` and seed `3039` gives `KEY-3039-` |
| Identity.DefaultNavigator | script.js:34-45 | with every hint absent the result is `System_Network_Link` and `KEY-6072-0` |
| Identity.ShortSeedPassword | script.js:41-45 | one core and 1 GB give seed `3039` and password `KEY-3039-` |
| Identity.ZeroHintIsAbsent | script.js:39-40 | zero hints give the same result as absent ones |
| Identity.ConnectionSsid | script.js:34-44 | with a typed connection the SSID is `System_` + the upper-cased type + `_` + the speed text |
| Identity.PasswordIgnoresConnection | script.js:39-45 | the password does not depend on the connection |

## Left out

- DOM lookups and element mutation other than the scrambled text: `UI.el`, `checkPermission`, `runNotifications`, `startSystem`, `executeScan`. They are presentation glue with no algorithm.
- `UI.wait`, `setInterval`/`setTimeout` timing and promise scheduling. One scramble is a sequence of ticks; two animations interleaving on one element are not modelled.
- `Math.random`: replaced by an oracle of alphabet indices. The oracle gives one draw per position and tick. The source draws only for hidden positions, in order; which draw feeds which position is not modelled.
- Scramble.Iteration: the counter is the exact rational t/3. JavaScript adds the double 1/3 instead, and the sum drifts. Twenty-seven additions give 8.999999999999998, so "CONNECTED" stops at tick 28 and writes 29 frames, where the model writes 28. Fifteen additions give 4.999999999999999, so a 5-character target stops at tick 16 instead of 15. Thirty-three additions give 11.000000000000002, so positions 11 to 18 are revealed one tick early. These are not the only cases: for lengths below 100, the double counter stops one tick late for n = 2, 5 to 9, 20 to 38 and 77 to 99, and such a target gets 3n + 2 frames where the model writes 3n + 1. One of them is the script's own 35-character target "Checking System_4G_1000 right now..", which stops at tick 106 where the model stops at 105. The facts stated above about ticks hold for the exact counter.
- Identity.DownlinkText: `Math.floor(connection.downlink * 100)` is taken as an integer input; the floating-point product and negative speeds are not modelled. A JavaScript number of 1e21 or more is written in exponent form (`1e+21`), while the model always writes plain decimal digits; no real downlink comes near that.
- Identity.OrDefault: fractional `deviceMemory` values (0.25, 0.5) and `NaN` hints are not modelled; hints are natural numbers.
- Identity.Seed: JavaScript numbers lose precision above 2^53; the product here is an unbounded integer.
- Scramble.Frame: JavaScript's `split("")`, `.length` and `targetText[index]` count UTF-16 code units, while a Dafny string counts Unicode scalar values. A target with a character outside the Basic Multilingual Plane would get a different frame length and other reveal ticks. The script passes no such target.
- Ascii.ToUpperCase: only ASCII letters are upper-cased; Unicode case mapping such as `ß` to `SS` is not modelled.
- Radix.ToRadix: only radices 10 and 16, the ones the script uses, are modelled.
- Identity.DerivedSsid: the only throw modelled is a connection without an `effectiveType`. Host getters that throw are not modelled.
- `alert` and `console.error` are host I/O and are left out.
- getWifiInfo is `async`; the model returns the record directly, without the promise.
