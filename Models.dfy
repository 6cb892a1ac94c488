/** The entities of Core.Library/Models: plain records. Nothing in the core
    computes with their dates or amounts, so those stay uninterpreted
    values. */
module Models {

  /** `System.DateTime`, as its tick count. */
  datatype DateTime = DateTime(ticks: int)

  /** `System.decimal`, as an integer coefficient and a power-of-ten scale. */
  datatype Decimal = Decimal(coefficient: int, scale: nat)

  /** `Cliente`. */
  datatype Cliente = Cliente(Id: string, Nombre: string, Direccion: string, Email: string)

  /** `Tarjeta`; its identifier is the `Id` the card service keys on. */
  datatype Tarjeta = Tarjeta(Id: string, ClienteId: string, Numero: string, Pin: string,
                             FechaExpiracion: DateTime, Saldo: Decimal)

  /** `TipoTransaccion`. */
  datatype TipoTransaccion = Pago | Consumo

  /** `Transaccion`. */
  datatype Transaccion = Transaccion(Id: string, TarjetaId: string, Tipo: TipoTransaccion,
                                     Descripcion: string, Fecha: DateTime, Monto: Decimal)

  /** The key each service stores its entity under. */
  function ClienteKey(c: Cliente): string
  {
    c.Id
  }

  function TarjetaKey(t: Tarjeta): string
  {
    t.Id
  }

  function TransaccionKey(tx: Transaccion): string
  {
    tx.Id
  }
}
