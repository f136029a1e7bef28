/** The command-line checks `main` makes before it allocates anything, and the sample count. */
module Validation {

  /** `ARG_ARGC`: program name, outfile, type, dur, srate. */
  const ArgCount: int := 5
  /** The largest duration accepted, in seconds. */
  const MaxDuration: int := 30
  /** `INT_MAX` of a 32-bit C `int`. */
  const IntMax: int := 0x7fff_ffff

  datatype Colour = White | Pink | Red

  /** The exponent given on the command line selects the colour: 0 white, 2 red, anything
      else that passed validation (that is, 1) pink. */
  function ColourOf(alpha: int): (c: Colour)
    ensures c == White <==> alpha == 0
    ensures c == Red <==> alpha == 2
  {
    if alpha == 0 then White else if alpha == 2 then Red else Pink
  }

  /** A request that passed every check. */
  datatype Request = Request(colour: Colour, dur: int, srate: int)

  ghost predicate ValidRequest(req: Request)
  {
    0 <= req.dur <= MaxDuration && req.srate > 0
  }

  /** The reasons `main` returns 1 before generating anything. */
  datatype Error =
    | ArgumentCount       // argc is not ARG_ARGC
    | InvalidType         // type outside [0, 2]
    | InvalidDuration     // dur outside [0, 30]
    | InitFailed          // psf_init reported failure
    | InvalidSampleRate   // srate not positive
    | UnknownFormat       // the outfile extension is not a known format

  datatype Result<T> = Ok(value: T) | Err(error: Error)

  /** The checks in the order `main` makes them; the first that fails decides the error.
      `initOk` is whether `psf_init` succeeded and `formatKnown` whether
      `psf_getFormatExt` recognised the outfile's extension. */
  function Validate(argc: int, alpha: int, dur: int, initOk: bool, srate: int, formatKnown: bool)
    : (r: Result<Request>)
    ensures r.Ok? <==>
      argc == ArgCount && 0 <= alpha <= 2 && 0 <= dur <= MaxDuration && initOk &&
      srate > 0 && formatKnown
    ensures r.Ok? ==>
      r.value.colour == ColourOf(alpha) && r.value.dur == dur && r.value.srate == srate &&
      ValidRequest(r.value)
    ensures r == Err(ArgumentCount) <==> argc != ArgCount
    ensures r == Err(InvalidType) <==> argc == ArgCount && !(0 <= alpha <= 2)
    ensures r == Err(InvalidDuration) <==>
      argc == ArgCount && 0 <= alpha <= 2 && !(0 <= dur <= MaxDuration)
    ensures r == Err(InitFailed) <==>
      argc == ArgCount && 0 <= alpha <= 2 && 0 <= dur <= MaxDuration && !initOk
    ensures r == Err(InvalidSampleRate) <==>
      argc == ArgCount && 0 <= alpha <= 2 && 0 <= dur <= MaxDuration && initOk && srate <= 0
    ensures r == Err(UnknownFormat) <==>
      argc == ArgCount && 0 <= alpha <= 2 && 0 <= dur <= MaxDuration && initOk && srate > 0 &&
      !formatKnown
  {
    if argc != ArgCount then Err(ArgumentCount)
    else if alpha < 0 || alpha > 2 then Err(InvalidType)
    else if dur < 0 || dur > MaxDuration then Err(InvalidDuration)
    else if !initOk then Err(InitFailed)
    else if srate <= 0 then Err(InvalidSampleRate)
    else if !formatKnown then Err(UnknownFormat)
    else Ok(Request(ColourOf(alpha), dur, srate))
  }

  /** `totalsamples = outprops.srate * dur`, a C `int` product. When the product does not
      overflow, the count is a non-negative `int` and exactly `dur` whole seconds of frames. */
  function TotalSamples(req: Request): (n: nat)
    requires ValidRequest(req)
    requires req.srate * req.dur <= IntMax
    ensures n <= IntMax
    ensures n % req.srate == 0 && n / req.srate == req.dur
  {
    WholeSeconds(req.srate, req.dur);
    req.srate * req.dur
  }

  lemma WholeSeconds(a: int, b: int)
    requires a > 0
    ensures (a * b) % a == 0 && (a * b) / a == b
  {
    var q, r := (a * b) / a, (a * b) % a;
    assert a * b == a * q + r && 0 <= r < a;
    assert a * (b - q) == r;
    if b - q >= 1 {
      Product(a, 1, b - q);
    } else if b - q <= -1 {
      Product(a, 1, q - b);
    }
  }

  lemma Product(a: nat, b: nat, c: nat)
    requires b <= c
    ensures a * b <= a * c
  {
  }

  /** Example requests: a red request of two seconds at 44100 Hz has
      88200 samples; type 3 is refused; a zero-second request is valid and has no samples; a
      one-second request at 100000000 Hz is valid and its count fits in an `int`. */
  lemma Scenarios()
    ensures Validate(ArgCount, 2, 2, true, 44100, true) == Ok(Request(Red, 2, 44100))
    ensures TotalSamples(Request(Red, 2, 44100)) == 88200
    ensures Validate(ArgCount, 3, 2, true, 44100, true) == Err(InvalidType)
    ensures Validate(ArgCount, 2, 0, true, 44100, true) == Ok(Request(Red, 0, 44100))
    ensures TotalSamples(Request(Red, 0, 44100)) == 0
    ensures Validate(ArgCount, 0, 1, true, 100000000, true) == Ok(Request(White, 1, 100000000))
    ensures TotalSamples(Request(White, 1, 100000000)) == 100000000
  {
  }
}
