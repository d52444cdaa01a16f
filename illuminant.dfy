/// EXIF/DNG light sources and their correlated colour temperatures (Core/Maths/Color/Illuminant.cs).
module Illuminant {

  datatype Illuminant =
    | Unknown | Daylight | Fluorescent | Tungsten | Flash | FineWeather | CloudyWeather | Shade
    | DaylightFluorescent | DayWhiteFluorescent | CoolWhiteFluorescent | WhiteFluorescent
    | WarmWhiteFluorescent | StandardLightA | StandardLightB | StandardLightC | D55 | D65 | D75 | D50
    | ISOStudioTungsten | Other
  {
    /** The enum's declared code (the EXIF LightSource tag value). */
    function Code(): (c: int)
      ensures 0 <= c <= 255
    {
      match this
      case Unknown => 0 case Daylight => 1 case Fluorescent => 2 case Tungsten => 3 case Flash => 4
      case FineWeather => 9 case CloudyWeather => 10 case Shade => 11 case DaylightFluorescent => 12
      case DayWhiteFluorescent => 13 case CoolWhiteFluorescent => 14 case WhiteFluorescent => 15
      case WarmWhiteFluorescent => 16 case StandardLightA => 17 case StandardLightB => 18
      case StandardLightC => 19 case D55 => 20 case D65 => 21 case D75 => 22 case D50 => 23
      case ISOStudioTungsten => 24 case Other => 255
    }

    predicate IsFluorescentKind() {
      this in {Fluorescent, DaylightFluorescent, DayWhiteFluorescent, CoolWhiteFluorescent,
               WhiteFluorescent, WarmWhiteFluorescent}
    }
  }

  /** The exception thrown for Unknown, Other and undeclared codes is modelled as None. */
  datatype Option<T> = None | Some(value: T)

  /** Midpoint of a fluorescent lamp's temperature range; every range used has an even width. */
  function Midpoint(lo: int, hi: int): int { (lo + hi) / 2 }

  /** The declared illuminant with the given code, None for a code the enum does not declare. */
  function FromCode(code: int): (r: Option<Illuminant>)
    ensures r.Some? <==> 0 <= code <= 4 || 9 <= code <= 24 || code == 255
    ensures r.Some? ==> r.value.Code() == code
  {
    match code
    case 0 => Some(Unknown) case 1 => Some(Daylight) case 2 => Some(Fluorescent)
    case 3 => Some(Tungsten) case 4 => Some(Flash) case 9 => Some(FineWeather)
    case 10 => Some(CloudyWeather) case 11 => Some(Shade) case 12 => Some(DaylightFluorescent)
    case 13 => Some(DayWhiteFluorescent) case 14 => Some(CoolWhiteFluorescent)
    case 15 => Some(WhiteFluorescent) case 16 => Some(WarmWhiteFluorescent)
    case 17 => Some(StandardLightA) case 18 => Some(StandardLightB) case 19 => Some(StandardLightC)
    case 20 => Some(D55) case 21 => Some(D65) case 22 => Some(D75) case 23 => Some(D50)
    case 24 => Some(ISOStudioTungsten) case 255 => Some(Other)
    case _ => None
  }

  /** Colour temperature in kelvin of an illuminant given by its code. The DNG reader casts
      any 16-bit CalibrationIlluminant value into the enum, so the argument is the code, and
      codes the enum does not declare reach the default branch like Unknown and Other. The
      exception thrown there is None. The float constants of the source are all exact integers. */
  function ColorTemperature(code: int): (k: Option<int>)
    ensures k.None? <==> !(1 <= code <= 4 || 9 <= code <= 24)
    ensures k.Some? ==> 2850 <= k.value <= 7500
    ensures FromCode(code).Some? && FromCode(code).value.IsFluorescentKind() ==>
              k.Some? && 2925 <= k.value <= 6400
  {
    match FromCode(code)
    case None => None
    case Some(i) =>
      match i
      case StandardLightA | Tungsten => Some(2850)
      case ISOStudioTungsten => Some(3200)
      case D50 => Some(5000)
      case D55 | Daylight | FineWeather | Flash | StandardLightB => Some(5500)
      case D65 | StandardLightC | CloudyWeather => Some(6500)
      case D75 | Shade => Some(7500)
      case DaylightFluorescent => Some(Midpoint(5700, 7100))
      case DayWhiteFluorescent => Some(Midpoint(4600, 5500))
      case CoolWhiteFluorescent | Fluorescent => Some(Midpoint(3800, 4500))
      case WhiteFluorescent => Some(Midpoint(3250, 3800))
      case WarmWhiteFluorescent => Some(Midpoint(2600, 3250))
      case Unknown | Other => None
  }

  /** The named values: the tungsten lights, the D series and the five fluorescent midpoints. */
  lemma {:induction false} NamedTemperatures()
    ensures ColorTemperature(Tungsten.Code()) == ColorTemperature(StandardLightA.Code()) == Some(2850)
    ensures ColorTemperature(ISOStudioTungsten.Code()) == Some(3200)
    ensures ColorTemperature(D50.Code()) == Some(5000) && ColorTemperature(D55.Code()) == Some(5500)
    ensures ColorTemperature(D65.Code()) == Some(6500) && ColorTemperature(D75.Code()) == Some(7500)
    ensures ColorTemperature(DaylightFluorescent.Code()) == Some(6400)
    ensures ColorTemperature(WarmWhiteFluorescent.Code()) == Some(2925)
    ensures ColorTemperature(DayWhiteFluorescent.Code()) == Some(5050)
    ensures ColorTemperature(CoolWhiteFluorescent.Code()) == Some(4150)
    ensures ColorTemperature(WhiteFluorescent.Code()) == Some(3525)
  {
  }

  /** Every declared illuminant is found again from its code. */
  lemma {:induction false} CodeRoundTrip(i: Illuminant)
    ensures FromCode(i.Code()) == Some(i)
  {
  }

  /** Codes the enum does not declare, such as 5 or 256, have no temperature. */
  lemma {:induction false} UndeclaredCodesThrow(code: int)
    requires 5 <= code <= 8 || 25 <= code <= 254 || 256 <= code <= 65535
    ensures FromCode(code).None? && ColorTemperature(code).None?
  {
  }

  /** The codes are distinct, so the enum is a faithful encoding of the tag. */
  lemma {:induction false} CodesDistinct(a: Illuminant, b: Illuminant)
    ensures a.Code() == b.Code() ==> a == b
  {
  }
}
