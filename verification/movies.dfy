/** One row of the movie table. */
module Movies {
  import opened Optional

  /** The columns the filter engine reads. A missing (NaN) cell of a text
      column is `None`; Rating and Year are always present. Runtime, Director
      and Description are only displayed and are not part of the model. */
  datatype Movie = Movie(
    title: Option<string>,
    genre: Option<string>,
    rating: real,
    year: int)
}
