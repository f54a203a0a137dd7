/** The stored enumerations: academic terms, days and delivery methods. */
module Enums {

  datatype CourseMethod = OnlineAsynchronous | OnlineSynchronous | FaceToFace | Others

  datatype Module =
    | SpringA | SpringB | SpringC | FallA | FallB | FallC
    | SummerVacation | SpringVacation | Annual | Unknown

  datatype Day =
    | Sun | Mon | Tue | Wed | Thu | Fri | Sat
    | Intensive | Appointment | AnyTime | Unknown
}
