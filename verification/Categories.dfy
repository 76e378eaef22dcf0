/** The sensitivity categories of `models.py`, which every governed component shares. */
module Categories {

  datatype Category =
    | DirectIdentifier
    | StablePseudonym
    | QuasiIdentifier
    | SensitiveAttribute
    | PublicOrLowRisk
    | Unclassified
}
